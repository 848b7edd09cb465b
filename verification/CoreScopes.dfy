/**
 * The binding scopes of the lowering context: shadowing a name, scoping a
 * block, scoping its defines, and what each undo restores
 * (packages/core/src/core.ts).
 */
module CoreScopes {
  import opened Wrappers

  type Rewrite = nat
  type Guard = nat

  /** `params` arrays are compared by identity, so an identity is what a define holds. */
  type Params = nat

  datatype SiteKind = Defined | Imported | OtherSite

  datatype Site = Site(kind: SiteKind, line: nat, column: nat)

  /** The parts of `Ctx` that scopes touch; an absent set or map is `undefined`. */
  datatype State = State(
    rewrites: map<string, Rewrite>,
    tagVarShadowed: Option<set<string>>,
    renderLets: Option<set<string>>,
    writeGuards: Option<map<string, Guard>>,
    laterLets: Option<set<string>>,
    laterConsts: Option<set<string>>,
    laterPlainConsts: Option<set<string>>,
    derivedConsts: Option<map<string, set<string>>>,
    bindingSites: map<string, Site>,
    defines: map<string, Params>)

  function Names(names: seq<string>): set<string> { set n | n in names }

  /** `new Set([...outer].filter((n) => !names.includes(n)))`, made only when a name is in it. */
  function Dropped(outer: Option<set<string>>, names: seq<string>): Option<set<string>> {
    match outer case None => None case Some(s) => Some(s - Names(names))
  }

  /** The state after `shadowBindings(ctx, names, guards)`. */
  function Shadowed(s: State, names: seq<string>, guards: Option<map<string, Guard>>): State {
    s.(rewrites := s.rewrites - Names(names),
       tagVarShadowed := Recorded(s.tagVarShadowed, names),
       renderLets := Dropped(s.renderLets, names),
       writeGuards := ShadowedGuards(s.writeGuards, names, guards),
       laterLets := Dropped(s.laterLets, names),
       laterConsts := Dropped(s.laterConsts, names),
       laterPlainConsts := Dropped(s.laterPlainConsts, names),
       derivedConsts := DroppedKeys(s.derivedConsts, names))
  }

  /** Every shadowed name is recorded, whether or not the host had registered it. */
  function Recorded(outer: Option<set<string>>, names: seq<string>): Option<set<string>> {
    if names == [] then outer else Some((if outer.Some? then outer.value else {}) + Names(names))
  }

  function DroppedKeys(outer: Option<map<string, set<string>>>, names: seq<string>): Option<map<string, set<string>>> {
    match outer case None => None case Some(m) => Some(m - Names(names))
  }

  function ShadowedGuards(outer: Option<map<string, Guard>>, names: seq<string>, guards: Option<map<string, Guard>>)
    : Option<map<string, Guard>>
  {
    var old' := if outer.Some? then outer.value else map[];
    var new' := if guards.Some? then guards.value else map[];
    if old' == map[] && new' == map[] then outer else Some((old' - Names(names)) + new')
  }

  // ---- what shadowing hides, name by name

  predicate Has(names: Option<set<string>>, n: string) { names.Some? && n in names.value }

  function At<T>(table: Option<map<string, T>>, n: string): Option<T> {
    if table.Some? && n in table.value then Some(table.value[n]) else None
  }

  /** The name is no rewrite, no `<let>`, no later one and no derived constant, and counts as shadowed. */
  predicate IsHidden(t: State, n: string) {
    n !in t.rewrites && Has(t.tagVarShadowed, n) && !Has(t.renderLets, n) && !Has(t.laterLets, n) &&
    !Has(t.laterConsts, n) && !Has(t.laterPlainConsts, n) && At(t.derivedConsts, n) == None
  }

  /** In every table but the guards the name is what it was. */
  predicate IsKept(s: State, t: State, n: string) {
    At(Some(t.rewrites), n) == At(Some(s.rewrites), n) &&
    (Has(t.tagVarShadowed, n) <==> Has(s.tagVarShadowed, n)) && (Has(t.renderLets, n) <==> Has(s.renderLets, n)) &&
    (Has(t.laterLets, n) <==> Has(s.laterLets, n)) && (Has(t.laterConsts, n) <==> Has(s.laterConsts, n)) &&
    (Has(t.laterPlainConsts, n) <==> Has(s.laterPlainConsts, n)) && At(t.derivedConsts, n) == At(s.derivedConsts, n)
  }

  /** No table comes or goes, but for the record of a first shadowed name and the map of a first guard. */
  predicate SameTables(s: State, t: State, names: seq<string>, guards: Option<map<string, Guard>>) {
    (t.tagVarShadowed.Some? <==> s.tagVarShadowed.Some? || names != []) &&
    (t.writeGuards.Some? <==> s.writeGuards.Some? || (guards.Some? && guards.value != map[])) &&
    (t.renderLets.Some? <==> s.renderLets.Some?) && (t.laterLets.Some? <==> s.laterLets.Some?) &&
    (t.laterConsts.Some? <==> s.laterConsts.Some?) && (t.laterPlainConsts.Some? <==> s.laterPlainConsts.Some?) &&
    (t.derivedConsts.Some? <==> s.derivedConsts.Some?)
  }

  /**
   * The names of a parameter list are hidden and have the guards they are given,
   * or none; a name given a guard alone has that; any other is as it was, and no
   * position and no define changes.
   */
  ghost predicate Hides(s: State, t: State, names: seq<string>, guards: Option<map<string, Guard>>) {
    (forall n <- names :: IsHidden(t, n)) && (forall n: string :: n !in names ==> IsKept(s, t, n)) &&
    (forall n: string :: At(guards, n).Some? || n in names ==> At(t.writeGuards, n) == At(guards, n)) &&
    (forall n: string :: At(guards, n).None? && n !in names ==> At(t.writeGuards, n) == At(s.writeGuards, n)) &&
    SameTables(s, t, names, guards) && t.bindingSites == s.bindingSites && t.defines == s.defines
  }

  lemma NameIsHidden(s: State, names: seq<string>, guards: Option<map<string, Guard>>, n: string)
    ensures n in names ==> IsHidden(Shadowed(s, names, guards), n)
    ensures n !in names ==> IsKept(s, Shadowed(s, names, guards), n)
  {
    hide ShadowedGuards;
    assert n in Names(names) <==> n in names;
  }

  lemma GuardIsTheOwn(outer: Option<map<string, Guard>>, names: seq<string>, guards: Option<map<string, Guard>>,
      n: string)
    ensures At(ShadowedGuards(outer, names, guards), n) ==
      if At(guards, n).Some? || n in names then At(guards, n) else At(outer, n)
  {
    assert n in Names(names) <==> n in names;
  }

  lemma TablesAreTheSame(s: State, names: seq<string>, guards: Option<map<string, Guard>>)
    ensures SameTables(s, Shadowed(s, names, guards), names, guards)
  {
    hide Names;
  }

  lemma ShadowingHides(s: State, names: seq<string>, guards: Option<map<string, Guard>>)
    ensures Hides(s, Shadowed(s, names, guards), names, guards)
  {
    hide Recorded, Dropped, DroppedKeys, ShadowedGuards, IsHidden, IsKept, SameTables, At, Names;
    forall n: string
      ensures n in names ==> IsHidden(Shadowed(s, names, guards), n)
      ensures n !in names ==> IsKept(s, Shadowed(s, names, guards), n)
      ensures At(ShadowedGuards(s.writeGuards, names, guards), n) ==
        if At(guards, n).Some? || n in names then At(guards, n) else At(s.writeGuards, n)
    {
      NameIsHidden(s, names, guards, n);
      GuardIsTheOwn(s.writeGuards, names, guards, n);
    }
    TablesAreTheSame(s, names, guards);
  }

  /** What `shadowBindings` keeps for its undo: the rewrites it removed, and the entry values of the rest. */
  datatype ShadowUndo = ShadowUndo(saved: map<string, Rewrite>, entry: State)

  /** The state after that undo, whatever state the body left. */
  function Unshadowed(u: ShadowUndo, t: State): State {
    t.(rewrites := t.rewrites + u.saved,
       tagVarShadowed := u.entry.tagVarShadowed,
       renderLets := u.entry.renderLets,
       writeGuards := u.entry.writeGuards,
       laterLets := u.entry.laterLets,
       laterConsts := u.entry.laterConsts,
       laterPlainConsts := u.entry.laterPlainConsts,
       derivedConsts := u.entry.derivedConsts)
  }

  /** What `scopeDefines` keeps. */
  datatype DefinesUndo = DefinesUndo(defines: map<string, Params>, sites: map<string, Site>)

  /** Where a name's site ends up when a block's defines are undone. */
  function SiteAfter(u: DefinesUndo, t: State, name: string): Option<Site> {
    var now := if name in t.bindingSites then Some(t.bindingSites[name]) else None;
    var before := if name in u.sites then Some(u.sites[name]) else None;
    if name in t.defines && name !in u.defines then
      if before.Some? then before else if now.Some? && now.value.kind.Defined? then None else now
    else if name in u.defines && (name !in t.defines || t.defines[name] != u.defines[name]) then
      if before.Some? then before else now
    else now
  }

  function SitesAfter(u: DefinesUndo, t: State): map<string, Site> {
    map name | name in t.bindingSites.Keys + u.sites.Keys && SiteAfter(u, t, name).Some? :: SiteAfter(u, t, name).value
  }

  /** The state after the undo of `scopeDefines`. */
  function Undefined(u: DefinesUndo, t: State): State {
    t.(defines := u.defines, bindingSites := SitesAfter(u, t))
  }

  /** What `scopeBindings` keeps; `defines` is absent when it was asked to leave them. */
  datatype ScopeUndo = ScopeUndo(entry: State, defines: Option<DefinesUndo>)

  class Ctx {
    var rewrites: map<string, Rewrite>
    var tagVarShadowed: Option<set<string>>
    var renderLets: Option<set<string>>
    var writeGuards: Option<map<string, Guard>>
    var laterLets: Option<set<string>>
    var laterConsts: Option<set<string>>
    var laterPlainConsts: Option<set<string>>
    var derivedConsts: Option<map<string, set<string>>>
    var bindingSites: map<string, Site>
    var defines: map<string, Params>

    function Now(): State
      reads this
    {
      State(rewrites, tagVarShadowed, renderLets, writeGuards, laterLets, laterConsts, laterPlainConsts,
            derivedConsts, bindingSites, defines)
    }

    method ShadowBindings(names: seq<string>, guards: Option<map<string, Guard>>) returns (undo: ShadowUndo)
      modifies this
      ensures Now() == Shadowed(old(Now()), names, guards)
      ensures Hides(old(Now()), Now(), names, guards)
      ensures undo.entry == old(Now())
      ensures undo.saved == (map n | n in old(rewrites) && n in names :: old(rewrites)[n])
    {
      hide Names, Recorded, Dropped, DroppedKeys, ShadowedGuards, Hides;
      var entry := Now();
      var saved := Unregister(names);
      tagVarShadowed := Recorded(tagVarShadowed, names);
      renderLets := Without(renderLets, names);
      laterLets := Without(laterLets, names);
      laterConsts := Without(laterConsts, names);
      laterPlainConsts := Without(laterPlainConsts, names);
      writeGuards := GuardsWithout(writeGuards, names, guards);
      derivedConsts := WithoutKeys(derivedConsts, names);
      undo := ShadowUndo(saved, entry);
      ShadowingHides(entry, names, guards);
    }

    /** The loop over `bindings`: the names' rewrites go, and are handed back. */
    method Unregister(names: seq<string>) returns (saved: map<string, Rewrite>)
      modifies this`rewrites
      ensures rewrites == old(rewrites) - Names(names)
      ensures saved == (map n | n in old(rewrites) && n in names :: old(rewrites)[n])
    {
      saved := map[];
      for i := 0 to |names|
        invariant rewrites == old(rewrites) - Names(names[..i])
        invariant saved == (map n | n in old(rewrites) && n in names[..i] :: old(rewrites)[n])
      {
        var name := names[i];
        if name !in rewrites { continue; }
        saved := saved[name := rewrites[name]];
        rewrites := rewrites - {name};
      }
      assert names[..|names|] == names;
    }

    static method GuardsWithout(
        outer: Option<map<string, Guard>>, names: seq<string>, guards: Option<map<string, Guard>>)
      returns (r: Option<map<string, Guard>>)
      ensures r == ShadowedGuards(outer, names, guards)
    {
      r := outer;
      if (outer.Some? && outer.value != map[]) || (guards.Some? && guards.value != map[]) {
        var kept := (if outer.Some? then outer.value else map[]) - Names(names);
        r := Some(kept + if guards.Some? then guards.value else map[]);
      }
    }

    static method WithoutKeys(outer: Option<map<string, set<string>>>, names: seq<string>)
      returns (r: Option<map<string, set<string>>>)
      ensures r == DroppedKeys(outer, names)
    {
      r := outer;
      if outer.Some? && exists n <- names :: n in outer.value {
        r := Some(outer.value - Names(names));
      }
      assert r.Some? ==> r.value == outer.value - Names(names);
    }

    /** `if (outer && names.some((name) => outer.has(name))) outer = new Set(...)`. */
    static method Without(outer: Option<set<string>>, names: seq<string>) returns (r: Option<set<string>>)
      ensures r == Dropped(outer, names)
    {
      r := outer;
      if outer.Some? && exists n <- names :: n in outer.value {
        r := Some(outer.value - Names(names));
      }
      assert r.Some? ==> r.value == outer.value - Names(names);
    }

    method UndoShadow(undo: ShadowUndo)
      modifies this
      ensures Now() == Unshadowed(undo, old(Now()))
    {
      rewrites := rewrites + undo.saved;
      tagVarShadowed := undo.entry.tagVarShadowed;
      renderLets := undo.entry.renderLets;
      writeGuards := undo.entry.writeGuards;
      laterLets := undo.entry.laterLets;
      laterConsts := undo.entry.laterConsts;
      laterPlainConsts := undo.entry.laterPlainConsts;
      derivedConsts := undo.entry.derivedConsts;
    }

    method ScopeDefines() returns (undo: DefinesUndo)
      ensures undo == DefinesUndo(defines, bindingSites)
    {
      undo := DefinesUndo(defines, bindingSites);
    }

    /** The undo of `scopeDefines`: names the block added go, names it re-declared are the outer declaration again. */
    method UndoDefines(undo: DefinesUndo)
      modifies this
      ensures Now() == Undefined(undo, old(Now()))
    {
      ghost var t := Now();
      ForgetAdded(undo);
      RestoreOuter(undo, t);
      SitesByName(undo, t);
    }

    /** The first loop of the undo, over the names now defined. */
    method ForgetAdded(undo: DefinesUndo)
      modifies this`defines, this`bindingSites
      ensures defines.Keys == old(defines.Keys) * undo.defines.Keys
      ensures forall n <- defines :: defines[n] == old(defines)[n]
      ensures forall n :: SiteNow(n) ==
                if n in old(defines) && n !in undo.defines then SiteAfter(undo, old(Now()), n) else old(SiteNow(n))
    {
      hide SiteAfter;
      ghost var t := Now();
      var added := defines.Keys;
      while added != {}
        invariant added <= t.defines.Keys && defines.Keys <= t.defines.Keys
        invariant forall n <- t.defines :: n in defines <==> n in added || n in undo.defines
        invariant forall n <- defines :: defines[n] == t.defines[n]
        invariant forall n :: SiteNow(n) ==
                    if n in t.defines && n !in undo.defines && n !in added then SiteAfter(undo, t, n) else SiteIn(t, n)
      {
        var name :| name in added;
        added := added - {name};
        if name in undo.defines { continue; }
        defines := defines - {name};
        ForgottenSite(undo, t, name);
        label Before:
        assert SiteNow(name) == SiteIn(t, name);
        ForgetSite(undo.sites, name);
        forall n ensures SiteNow(n) ==
                   if n in t.defines && n !in undo.defines && n !in added then SiteAfter(undo, t, n) else SiteIn(t, n)
        {
          if n != name { assert SiteNow(n) == old@Before(SiteNow(n)); }
        }
      }
      assert defines.Keys == t.defines.Keys * undo.defines.Keys;
    }

    /** A define's own position goes with it; any other site of that name is the outer one again. */
    method ForgetSite(sites: map<string, Site>, name: string)
      modifies this`bindingSites
      ensures forall n :: n != name ==> SiteNow(n) == old(SiteNow(n))
      ensures SiteNow(name) ==
                if name in sites then Some(sites[name])
                else if name in old(bindingSites) && old(bindingSites)[name].kind.Defined? then None
                else old(SiteNow(name))
    {
      if name in sites {
        bindingSites := bindingSites[name := sites[name]];
      } else if name in bindingSites && bindingSites[name].kind.Defined? {
        bindingSites := bindingSites - {name};
      }
    }

    lemma ForgottenSite(undo: DefinesUndo, t: State, name: string)
      requires name in t.defines && name !in undo.defines
      ensures SiteAfter(undo, t, name) ==
                if name in undo.sites then Some(undo.sites[name])
                else if name in t.bindingSites && t.bindingSites[name].kind.Defined? then None
                else SiteIn(t, name)
    {
    }

    /** The second loop, over the names defined before the block. */
    method RestoreOuter(undo: DefinesUndo, ghost t: State)
      requires defines.Keys == t.defines.Keys * undo.defines.Keys && forall n <- defines :: defines[n] == t.defines[n]
      requires forall n :: SiteNow(n) ==
                 if n in t.defines && n !in undo.defines then SiteAfter(undo, t, n) else SiteIn(t, n)
      modifies this`defines, this`bindingSites
      ensures defines == undo.defines
      ensures forall n :: SiteNow(n) == SiteAfter(undo, t, n)
    {
      assert forall n :: n !in undo.defines ==> SiteNow(n) == SiteAfter(undo, t, n);
      hide SiteAfter;
      var outer := undo.defines.Keys;
      while outer != {}
        invariant outer <= undo.defines.Keys && defines.Keys <= undo.defines.Keys
        invariant forall n <- undo.defines ::
                    if n in outer then (n in defines <==> n in t.defines) &&
                      (n in defines ==> defines[n] == t.defines[n])
                    else n in defines && defines[n] == undo.defines[n]
        invariant forall n :: SiteNow(n) == if n in outer then SiteIn(t, n) else SiteAfter(undo, t, n)
      {
        var name :| name in outer;
        outer := outer - {name};
        RestoredSite(undo, t, name);
        label Before:
        assert SiteNow(name) == SiteIn(t, name);
        RestoreDefine(undo, name);
        forall n ensures SiteNow(n) == if n in outer then SiteIn(t, n) else SiteAfter(undo, t, n) {
          if n != name { assert SiteNow(n) == old@Before(SiteNow(n)); }
        }
      }
      assert defines == undo.defines;
    }

    /**
     * A name that is still the outer declaration is left alone; any other is that
     * declaration again, at its position.
     */
    method RestoreDefine(undo: DefinesUndo, name: string)
      requires name in undo.defines
      modifies this`defines, this`bindingSites
      ensures defines == old(defines)[name := undo.defines[name]]
      ensures forall n :: n != name ==> SiteNow(n) == old(SiteNow(n))
      ensures SiteNow(name) ==
                if name in undo.sites && !(name in old(defines) && old(defines)[name] == undo.defines[name]) then
                  Some(undo.sites[name])
                else old(SiteNow(name))
    {
      if name in defines && defines[name] == undo.defines[name] {
        assert defines[name := undo.defines[name]] == defines;
        return;
      }
      defines := defines[name := undo.defines[name]];
      if name in undo.sites {
        bindingSites := bindingSites[name := undo.sites[name]];
      }
    }

    lemma RestoredSite(undo: DefinesUndo, t: State, name: string)
      requires name in undo.defines
      ensures SiteAfter(undo, t, name) ==
                if name in undo.sites && !(name in t.defines && t.defines[name] == undo.defines[name]) then
                  Some(undo.sites[name])
                else SiteIn(t, name)
    {
    }

    function SiteNow(n: string): Option<Site>
      reads this
    {
      SiteIn(Now(), n)
    }

    lemma SitesByName(undo: DefinesUndo, t: State)
      requires forall n :: SiteNow(n) == SiteAfter(undo, t, n)
      ensures bindingSites == SitesAfter(undo, t)
    {
      forall n ensures n in bindingSites <==> n in SitesAfter(undo, t) {
        assert SiteNow(n) == SiteAfter(undo, t, n);
      }
      forall n | n in bindingSites ensures bindingSites[n] == SitesAfter(undo, t)[n] {
        assert SiteNow(n) == SiteAfter(undo, t, n);
      }
    }

    method ScopeBindings(withDefines: bool) returns (undo: ScopeUndo)
      ensures undo == ScopeUndo(Now(), if withDefines then Some(DefinesUndo(defines, bindingSites)) else None)
    {
      var d: Option<DefinesUndo> := None;
      if withDefines {
        var u := ScopeDefines();
        d := Some(u);
      }
      undo := ScopeUndo(Now(), d);
    }

    /**
     * The undo of `scopeBindings`, run in whatever state the block left. It
     * restores everything; the defines only when it was to scope them.
     */
    method UndoScope(undo: ScopeUndo)
      requires undo.defines.Some? ==> undo.defines.value == DefinesUndo(undo.entry.defines, undo.entry.bindingSites)
      modifies this
      ensures Now() == undo.entry.(defines := if undo.defines.Some? then undo.entry.defines else old(defines))
    {
      var entry := undo.entry;
      rewrites := entry.rewrites;
      tagVarShadowed := entry.tagVarShadowed;
      renderLets := entry.renderLets;
      writeGuards := entry.writeGuards;
      laterLets := entry.laterLets;
      laterConsts := entry.laterConsts;
      laterPlainConsts := entry.laterPlainConsts;
      derivedConsts := entry.derivedConsts;
      RestoreSites(entry.bindingSites);
      if undo.defines.Some? {
        SitesStay(undo.defines.value, Now());
        UndoDefines(undo.defines.value);
      }
    }

    method RestoreSites(saved: map<string, Site>)
      modifies this
      ensures Now() == old(Now()).(bindingSites := saved)
    {
      ghost var t := Now();
      var present := bindingSites.Keys;
      while present != {}
        invariant present <= t.bindingSites.Keys
        invariant Now() == t.(bindingSites := t.bindingSites - (t.bindingSites.Keys - present - saved.Keys))
      {
        var name :| name in present;
        present := present - {name};
        if name !in saved { bindingSites := bindingSites - {name}; }
      }
      var rest := saved.Keys;
      while rest != {}
        invariant rest <= saved.Keys && bindingSites.Keys <= saved.Keys
        invariant Now() == t.(bindingSites := bindingSites)
        invariant forall n <- saved :: n !in rest ==> n in bindingSites && bindingSites[n] == saved[n]
      {
        var name :| name in rest;
        rest := rest - {name};
        bindingSites := bindingSites[name := saved[name]];
      }
      assert bindingSites == saved;
    }
  }

  function SiteIn(t: State, n: string): Option<Site> {
    if n in t.bindingSites then Some(t.bindingSites[n]) else None
  }

  /** Undoing defines when the sites are back already moves no site, whatever the defines are. */
  lemma SitesStay(u: DefinesUndo, t: State)
    requires t.bindingSites == u.sites
    ensures SitesAfter(u, t) == t.bindingSites
  {
    forall n | n in t.bindingSites.Keys + u.sites.Keys
      ensures SiteAfter(u, t, n) == Some(t.bindingSites[n])
    {
    }
  }

  // ---- whole runs

  /**
   * What lowering does to the state. `Const` shadows for the rest of the scope
   * and is never undone; `Block` is scoped by `scopeBindings`, `Element` by
   * `scopeDefines` alone; `Parameters` shadows and undoes around its body.
   */
  datatype Command =
    | Const(names: seq<string>, guards: Option<map<string, Guard>>)
    | Define(name: string, params: Params, site: Site)
    | Note(name: string, site: Site)
    | Register(name: string, rewrite: Rewrite)
    | Replace(state: State)
    | Block(withDefines: bool, body: seq<Command>)
    | Element(body: seq<Command>)
    | Parameters(names: seq<string>, guards: Option<map<string, Guard>>, body: seq<Command>)

  function SavedBy(s: State, names: seq<string>): map<string, Rewrite> {
    map n | n in s.rewrites && n in names :: s.rewrites[n]
  }

  function Exec(s: State, c: Command): State
    decreases c
  {
    match c
    case Const(names, guards) => Shadowed(s, names, guards)
    case Define(name, params, site) =>
      s.(defines := s.defines[name := params], bindingSites := s.bindingSites[name := site])
    case Note(name, site) => s.(bindingSites := s.bindingSites[name := site])
    case Register(name, rewrite) => s.(rewrites := s.rewrites[name := rewrite])
    case Replace(state) => state
    case Block(withDefines, body) => s.(defines := if withDefines then s.defines else ExecAll(s, body).defines)
    case Element(body) => Undefined(DefinesUndo(s.defines, s.bindingSites), ExecAll(s, body))
    case Parameters(names, guards, body) =>
      Unshadowed(ShadowUndo(SavedBy(s, names), s), ExecAll(Shadowed(s, names, guards), body))
  }

  function ExecAll(s: State, cs: seq<Command>): State
    decreases cs
  {
    if cs == [] then s else Exec(ExecAll(s, cs[..|cs| - 1]), cs[|cs| - 1])
  }

  /** Running a command on the context, through the real scope operations. */
  method Perform(ctx: Ctx, c: Command)
    modifies ctx
    ensures ctx.Now() == Exec(old(ctx.Now()), c)
    decreases c
  {
    hide Shadowed, Unshadowed, Undefined;
    match c
    case Const(names, guards) => var _ := ctx.ShadowBindings(names, guards);
    case Define(name, params, site) =>
      ctx.defines, ctx.bindingSites := ctx.defines[name := params], ctx.bindingSites[name := site];
    case Note(name, site) => ctx.bindingSites := ctx.bindingSites[name := site];
    case Register(name, rewrite) => ctx.rewrites := ctx.rewrites[name := rewrite];
    case Replace(state) =>
      ctx.rewrites, ctx.tagVarShadowed, ctx.renderLets := state.rewrites, state.tagVarShadowed, state.renderLets;
      ctx.writeGuards, ctx.laterLets, ctx.laterConsts := state.writeGuards, state.laterLets, state.laterConsts;
      ctx.laterPlainConsts, ctx.derivedConsts := state.laterPlainConsts, state.derivedConsts;
      ctx.bindingSites, ctx.defines := state.bindingSites, state.defines;
    case _ => PerformScope(ctx, c);
  }

  /** The commands that scope a body. */
  method PerformScope(ctx: Ctx, c: Command)
    requires c.Block? || c.Element? || c.Parameters?
    modifies ctx
    ensures ctx.Now() == Exec(old(ctx.Now()), c)
    decreases c, 0
  {
    hide Shadowed, Unshadowed, Undefined, ExecAll;
    match c
    case Block(withDefines, body) =>
      var undo := ctx.ScopeBindings(withDefines);
      PerformAll(ctx, body);
      ctx.UndoScope(undo);
    case Element(body) =>
      var undo := ctx.ScopeDefines();
      PerformAll(ctx, body);
      ctx.UndoDefines(undo);
    case Parameters(names, guards, body) =>
      var undo := ctx.ShadowBindings(names, guards);
      PerformAll(ctx, body);
      ctx.UndoShadow(undo);
  }

  method PerformAll(ctx: Ctx, cs: seq<Command>)
    modifies ctx
    ensures ctx.Now() == ExecAll(old(ctx.Now()), cs)
    decreases cs
  {
    for i := 0 to |cs|
      invariant ctx.Now() == ExecAll(old(ctx.Now()), cs[..i])
    {
      Perform(ctx, cs[i]);
      assert cs[..i + 1][..i] == cs[..i];
    }
    assert cs[..|cs|] == cs;
  }

  /** A body made of blocks and parameter lists leaves the state as it found it. */
  predicate Balanced(cs: seq<Command>)
    decreases cs
  {
    forall i :: 0 <= i < |cs| ==> BalancedCommand(cs[i])
  }

  predicate BalancedCommand(c: Command)
    decreases c
  {
    match c
    case Block(withDefines, body) => withDefines || Balanced(body)
    case Parameters(_, _, body) => Balanced(body)
    case _ => false
  }

  lemma {:induction false} BalancedKeeps(s: State, c: Command)
    requires BalancedCommand(c)
    ensures Exec(s, c) == s
    decreases c
  {
    match c
    case Block(withDefines, body) => if !withDefines { AllBalancedKeep(s, body); }
    case Parameters(names, guards, body) =>
      AllBalancedKeep(Shadowed(s, names, guards), body);
      assert s.rewrites - Names(names) + SavedBy(s, names) == s.rewrites;
  }

  /**
   * Nested blocks and parameter lists, however deep, restore the state they
   * began in; inside a block that scopes its defines anything may happen.
   */
  lemma {:induction false} AllBalancedKeep(s: State, cs: seq<Command>)
    requires Balanced(cs)
    ensures ExecAll(s, cs) == s
    decreases cs
  {
    if cs != [] {
      AllBalancedKeep(s, cs[..|cs| - 1]);
      BalancedKeeps(s, cs[|cs| - 1]);
    }
  }

  /**
   * The undo of a parameter list restores its entry state exactly when the
   * body left alone what the undo does not write: the other names' rewrites,
   * the sites and the defines. It need not have restored the names it was
   * handed.
   */
  lemma ParametersRestoreExactly(s: State, names: seq<string>, guards: Option<map<string, Guard>>, body: seq<Command>)
    ensures var t := ExecAll(Shadowed(s, names, guards), body);
            Exec(s, Parameters(names, guards, body)) == s <==>
              t.rewrites - SavedBy(s, names).Keys == s.rewrites - SavedBy(s, names).Keys &&
              t.bindingSites == s.bindingSites && t.defines == s.defines
  {
    var t := ExecAll(Shadowed(s, names, guards), body);
    var saved := SavedBy(s, names);
    if t.rewrites - saved.Keys == s.rewrites - saved.Keys {
      forall n ensures n in t.rewrites + saved <==> n in s.rewrites {
        if n !in saved {
          assert n in t.rewrites - saved.Keys <==> n in s.rewrites - saved.Keys;
        }
      }
      forall n | n in s.rewrites ensures (t.rewrites + saved)[n] == s.rewrites[n] {
        if n !in saved {
          assert (t.rewrites - saved.Keys)[n] == (s.rewrites - saved.Keys)[n];
        }
      }
      assert t.rewrites + saved == s.rewrites;
    }
    if t.rewrites + saved == s.rewrites {
      assert t.rewrites - saved.Keys == (t.rewrites + saved) - saved.Keys;
    }
  }

  /** What the undo of a native element finds new, or not as it was, among the defines. */
  predicate NewlyDeclared(s: State, t: State, n: string) { n in t.defines && n !in s.defines }

  predicate DeclaredAgain(s: State, t: State, n: string) {
    n in s.defines && (n !in t.defines || t.defines[n] != s.defines[n])
  }

  /** The position `n` had before is written back, or was not lost. */
  predicate SiteComesBack(s: State, t: State, n: string) {
    if n in s.bindingSites then NewlyDeclared(s, t, n) || DeclaredAgain(s, t, n) || SiteIn(t, n) == SiteIn(s, n)
    else n !in t.bindingSites || (NewlyDeclared(s, t, n) && t.bindingSites[n].kind.Defined?)
  }

  /**
   * The undo of a native element restores the state before its body exactly
   * when the body left alone everything but the defines and the positions, moved
   * no position of a name it did not declare or drop, and gave a new position
   * only to a name it newly declared, at a define.
   */
  lemma ElementRestoresExactly(s: State, body: seq<Command>)
    ensures var t := ExecAll(s, body);
            Exec(s, Element(body)) == s <==>
              t == s.(defines := t.defines, bindingSites := t.bindingSites) &&
              forall n: string :: SiteComesBack(s, t, n)
  {
    var t, u := ExecAll(s, body), DefinesUndo(s.defines, s.bindingSites);
    var after := Undefined(u, t);
    forall n ensures SiteIn(after, n) == SiteAfter(u, t, n) {
    }
    forall n ensures SiteComesBack(s, t, n) <==> SiteIn(after, n) == SiteIn(s, n) {
      assert SiteIn(after, n) == SiteAfter(u, t, n);
    }
    if forall n: string :: SiteComesBack(s, t, n) {
      SameSites(after, s);
    }
  }

  lemma SameSites(s: State, t: State)
    requires forall n: string :: SiteIn(s, n) == SiteIn(t, n)
    ensures s.bindingSites == t.bindingSites
  {
    forall n ensures n in s.bindingSites <==> n in t.bindingSites {
      assert SiteIn(s, n) == SiteIn(t, n);
    }
    forall n | n in s.bindingSites ensures s.bindingSites[n] == t.bindingSites[n] {
      assert SiteIn(s, n) == SiteIn(t, n);
    }
  }

  /** Only defines, each at a define's own position and none the declaration the name has outside. */
  predicate Defines(s: State, cs: seq<Command>) {
    forall i :: 0 <= i < |cs| ==>
      cs[i].Define? && cs[i].site.kind.Defined? && (cs[i].name in s.defines ==> s.defines[cs[i].name] != cs[i].params)
  }

  /** Defines change nothing but the defines and the positions of the names they define. */
  lemma {:induction false} DefinesAlone(s: State, cs: seq<Command>)
    requires Defines(s, cs)
    ensures var t := ExecAll(s, cs);
            t == s.(defines := t.defines, bindingSites := t.bindingSites) && s.defines.Keys <= t.defines.Keys &&
            forall n ::
              if n in t.defines && (n !in s.defines || t.defines[n] != s.defines[n]) then
                n in t.bindingSites && t.bindingSites[n].kind.Defined?
              else (n in t.defines ==> n in s.defines) && SiteIn(t, n) == SiteIn(s, n)
  {
    if cs != [] {
      DefinesAlone(s, cs[..|cs| - 1]);
    }
  }

  /**
   * A native element's body that only defines, new names and names of the block
   * around it alike, leaves the state as it found it: the defines and every
   * name's position, as long as each define outside has a position.
   */
  lemma ElementForgetsDefines(s: State, body: seq<Command>)
    requires Defines(s, body) && s.defines.Keys <= s.bindingSites.Keys
    ensures Exec(s, Element(body)) == s
  {
    DefinesAlone(s, body);
    var t := ExecAll(s, body);
    forall n ensures SiteComesBack(s, t, n) {
      assert SiteIn(t, n) == SiteIn(s, n) || n in t.defines;
    }
    ElementRestoresExactly(s, body);
  }
}
