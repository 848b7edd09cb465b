/**
 * Chains of aliases that end in `AttrTag`, and what becomes of an imported
 * type that a read follows twice (packages/core/src/callee-input.ts).
 */
module CalleeChains {
  import opened CalleeInput
  import opened Wrappers

  /**
   * From `name` in `from`, `k` bare references lead to `AttrTag`, through
   * aliases in any files, none of them twice; the state moves on with every
   * file that is followed.
   */
  ghost predicate Chain(
      cfg: Config, w: World, u: set<Key>, st: Reader, name: string, from: Path, k: nat, visited: set<Key>)
    decreases k
  {
    var (resolved, st1) := Resolve(cfg, w, u, st, name, from, {}, 0);
    k > 0 && (from, name) !in visited && (from, name) in u &&
    resolved.Done? && resolved.value.Some? && resolved.value.value.0.Alias? &&
    var t, path := resolved.value.value.0.type', resolved.value.value.1;
    if k == 1 then t.AttrTag? && path !in st1.shadowed
    else t.Ref? && Chain(cfg, w, u, st1, t.name, path, k - 1, visited + {(from, name)})
  }

  lemma {:induction false} ChainVisitsLess(
      cfg: Config, w: World, u: set<Key>, st: Reader, name: string, from: Path, k: nat, visited: set<Key>,
      fewer: set<Key>)
    requires Chain(cfg, w, u, st, name, from, k, visited) && fewer <= visited
    ensures Chain(cfg, w, u, st, name, from, k, fewer)
    decreases k
  {
    if k > 1 {
      var (resolved, st1) := Resolve(cfg, w, u, st, name, from, {}, 0);
      ChainVisitsLess(cfg, w, u, st1, resolved.value.value.0.type'.name, resolved.value.value.1, k - 1,
                      visited + {(from, name)}, fewer + {(from, name)});
    }
  }

  /** The unbounded look-behind finds `AttrTag` at the end of a chain of any length. */
  lemma {:induction false} ChainIsFound(
      cfg: Config, w: World, u: set<Key>, st: Reader, name: string, from: Path, k: nat, visited: set<Key>)
    requires Chain(cfg, w, u, st, name, from, k, visited)
    ensures Eventually(cfg, w, u, st, name, from, visited).0 == Done(true)
    decreases k
  {
    var (resolved, st1) := Resolve(cfg, w, u, st, name, from, {}, 0);
    if k > 1 {
      ChainIsFound(cfg, w, u, st1, resolved.value.value.0.type'.name, resolved.value.value.1, k - 1,
        visited + {(from, name)});
    }
  }

  /** Below the depth limit, a name not seen yet resolves whatever the depth. */
  lemma ResolveAlike(
      cfg: Config, w: World, u: set<Key>, st: Reader, name: string, from: Path, seen: set<Key>, depth: nat)
    requires (from, name) !in seen && depth <= MAX_ALIAS_DEPTH
    ensures Resolve(cfg, w, u, st, name, from, seen, depth) == Resolve(cfg, w, u, st, name, from, {}, 0)
  {
  }

  lemma ResolveTooDeep(
      cfg: Config, w: World, u: set<Key>, st: Reader, name: string, from: Path, seen: set<Key>, depth: nat)
    requires depth > MAX_ALIAS_DEPTH
    ensures Resolve(cfg, w, u, st, name, from, seen, depth) == (Done(None), st)
  {
  }

  lemma {:induction false} ChainFrom(
      cfg: Config, w: World, u: set<Key>, st: Reader, name: string, from: Path, k: nat, many: bool, seen: set<Key>,
      depth: nat)
    requires depth <= MAX_ALIAS_DEPTH && Chain(cfg, w, u, st, name, from, k, seen)
    ensures Classify(cfg, w, u, st, Ref(name), many, from, seen, depth).0
         == Done(if depth + k <= MAX_ALIAS_DEPTH then Declared(if many then Array else Required) else NotLiteral)
    decreases k
  {
    hide Eventually, Resolve;
    if depth == MAX_ALIAS_DEPTH {
      ResolveTooDeep(cfg, w, u, st, name, from, seen, depth + 1);
      ChainVisitsLess(cfg, w, u, st, name, from, k, seen, {});
      ChainIsFound(cfg, w, u, st, name, from, k, {});
    } else {
      var (resolved, st1) := Resolve(cfg, w, u, st, name, from, {}, 0);
      ResolveAlike(cfg, w, u, st, name, from, seen, depth + 1);
      var t, path := resolved.value.value.0.type', resolved.value.value.1;
      if k > 1 {
        ChainFrom(cfg, w, u, st1, t.name, path, k - 1, many, seen + {(from, name)}, depth + 1);
      }
    }
  }

  /**
   * A property whose type is a chain of `k` references ending in a recognised
   * `AttrTag` is declared when `k` is at most four, and a positioned error
   * when it is more: never an ordinary prop.
   */
  lemma ChainIsDeclaredOrError(cfg: Config, w: World, u: set<Key>, st: Reader, name: string, from: Path, k: nat)
    requires Chain(cfg, w, u, st, name, from, k, {})
    ensures Classify(cfg, w, u, st, Ref(name), false, from, {}, 0).0 ==
      Done(if k <= 4 then Declared(Required) else NotLiteral)
  {
    ChainFrom(cfg, w, u, st, name, from, k, false, {}, 0);
  }

  // ---- following one import twice

  /** `name` in `from` is an import of `imported` from the file `target`, and no declaration of `from` itself. */
  ghost predicate IsImport(
      cfg: Config, w: World, st: Reader, name: string, from: Path, target: Path, imported: string)
  {
    (from, name) !in st.declarations && (from, name) in st.typeImports &&
    var typeImport := st.typeImports[(from, name)];
    typeImport.imported == imported && cfg.followable(target) &&
    Probe(w, cfg.Candidates(cfg.join(from, typeImport.specifier))).0 == Some(target)
  }

  lemma {:induction false} LeavesMark(
      cfg: Config, w: World, u: set<Key>, st: Reader, path: Path, source: Text, name: string)
    requires (path, name) in u
    ensures (path, name) in ImportedDeclaration(cfg, w, u, st, path, source, name).1.followed
  {
    if (path, name) !in st.followed && cfg.parse(source).Some? && DeclaredIn(cfg.parse(source).value, name).None? {
      var st1 := st.(followed := st.followed + {(path, name)});
      assert st1.Within(Behind(cfg, w, u, st1, path, cfg.parse(source).value, name).1);
    }
  }

  /**
   * Any import of a declaration the target file makes itself resolves exactly
   * when its target has not been followed for that name; and whatever the
   * target is, it is marked as followed afterwards.
   */
  lemma FollowedImportIsLost(
      cfg: Config, w: World, u: set<Key>, st: Reader, name: string, from: Path, target: Path, imported: string)
    requires IsImport(cfg, w, st, name, from, target, imported) && (target, imported) in u
    ensures (target, imported) in Resolve(cfg, w, u, st, name, from, {}, 0).1.followed
    ensures (target, imported) in st.followed ==> Resolve(cfg, w, u, st, name, from, {}, 0).0 == Done(None)
    ensures (target, imported) !in st.followed && cfg.parse(w.TextAt(target).value).Some? ==>
              var decl := DeclaredIn(cfg.parse(w.TextAt(target).value).value, imported);
              decl.Some? ==> Resolve(cfg, w, u, st, name, from, {}, 0).0 == Done(Some((decl.value, target)))
  {
    hide Behind, Probe;
    LeavesMark(cfg, w, u, Followed(cfg, w, st, name, from, target), target, w.TextAt(target).value, imported);
  }

  /** The file declares `imported` itself, as an alias of `AttrTag`, perhaps in an array. */
  ghost predicate DeclaresTag(cfg: Config, w: World, target: Path, imported: string)
  {
    w.TextAt(target).Some? && cfg.parse(w.TextAt(target).value).Some? &&
    var decl := DeclaredIn(cfg.parse(w.TextAt(target).value).value, imported);
    decl.Some? && decl.value.Alias? && Unwrap(decl.value.type').0.AttrTag?
  }

  /** Nothing in the file makes `AttrTag` another type there. */
  predicate KeepsAttrTag(cfg: Config, items: Module) {
    forall item <- items ::
      !(item.Declare? && item.name == "AttrTag") &&
      !(item.ImportType? && item.local == "AttrTag" && item.specifier !in cfg.attrTagSources)
  }

  ghost predicate IsTagImport(
      cfg: Config, w: World, u: set<Key>, st: Reader, name: string, from: Path, target: Path, imported: string)
  {
    IsImport(cfg, w, st, name, from, target, imported) && DeclaresTag(cfg, w, target, imported) &&
    KeepsAttrTag(cfg, cfg.parse(w.TextAt(target).value).value) && target !in st.shadowed &&
    from != target && (target, imported) in u && (from, name) in u
  }

  /** `later` knows what `st` does about every file but `target`, and has followed `imported` there. */
  ghost predicate OnlyFollows(st: Reader, later: Reader, target: Path, imported: string)
  {
    later.followed == st.followed + {(target, imported)} && later.shadowed == st.shadowed &&
    (forall k: Key :: k.0 != target ==> (k in later.declarations <==> k in st.declarations)) &&
    (forall k: Key :: k.0 != target ==> (k in later.typeImports <==> k in st.typeImports)) &&
    forall k <- st.typeImports :: k.0 != target ==> later.typeImports[k] == st.typeImports[k]
  }

  lemma {:induction false} AddedElsewhere(cfg: Config, st: Reader, target: Path, items: Module)
    requires KeepsAttrTag(cfg, items)
    ensures var later := st.AddModule(cfg, target, items);
            later.followed == st.followed && later.shadowed == st.shadowed &&
            (forall k: Key :: k.0 != target ==> (k in later.declarations <==> k in st.declarations)) &&
            (forall k: Key :: k.0 != target ==> (k in later.typeImports <==> k in st.typeImports)) &&
            forall k <- st.typeImports :: k.0 != target ==> later.typeImports[k] == st.typeImports[k]
    decreases |items|
  {
    if items != [] {
      assert items[0] in items;
      AddedElsewhere(cfg, st.AddItem(cfg, target, items[0]), target, items[1..]);
    }
  }

  function Followed(cfg: Config, w: World, st: Reader, name: string, from: Path, target: Path): Reader
    requires (from, name) in st.typeImports && w.TextAt(target).Some?
  {
    var tried := Probe(w, cfg.Candidates(cfg.join(from, st.typeImports[(from, name)].specifier))).1;
    var st1 := st.Ask(from, st.typeImports[(from, name)].specifier, tried);
    st1.(sources := st1.sources[target := w.TextAt(target).value]).Depend(target)
  }

  /** An import resolves exactly when its target has not been followed for that name before. */
  lemma ImportResolves(
      cfg: Config, w: World, u: set<Key>, st: Reader, name: string, from: Path, target: Path, imported: string,
      seen: set<Key>, depth: nat)
    requires IsTagImport(cfg, w, u, st, name, from, target, imported) && (from, name) !in seen &&
      depth <= MAX_ALIAS_DEPTH
    ensures var (resolved, st1) := Resolve(cfg, w, u, st, name, from, seen, depth);
            var decl := DeclaredIn(cfg.parse(w.TextAt(target).value).value, imported).value;
            resolved == Done(if (target, imported) in st.followed then None else Some((decl, target))) &&
            OnlyFollows(st, st1, target, imported)
  {
    var key, st2 := (target, imported), Followed(cfg, w, st, name, from, target);
    var items := cfg.parse(w.TextAt(target).value).value;
    assert KeepsAttrTag(cfg, items) && DeclaresTag(cfg, w, target, imported) && key in u;
    assert IsImport(cfg, w, st, name, from, target, imported);
    hide *;
    ImportedHere(cfg, w, u, st2, target, imported);
    ResolvesThrough(cfg, w, u, st, name, from, target, imported, seen, depth);
    FollowedOnly(cfg, w, st, name, from, target, imported);
    if key in st.followed {
      assert st.followed + {key} == st.followed;
    } else {
      AddsOnlyThere(cfg, st, st2.(followed := st.followed + {key}), target, imported, items);
    }
  }

  lemma FollowedOnly(cfg: Config, w: World, st: Reader, name: string, from: Path, target: Path, imported: string)
    requires (from, name) in st.typeImports && w.TextAt(target).Some?
    ensures var st2 := Followed(cfg, w, st, name, from, target);
            st2.followed == st.followed &&
            OnlyFollows(st, st2.(followed := st.followed + {(target, imported)}), target, imported)
  {
  }

  lemma AddsOnlyThere(cfg: Config, st: Reader, later: Reader, target: Path, imported: string, items: Module)
    requires OnlyFollows(st, later, target, imported) && KeepsAttrTag(cfg, items)
    ensures OnlyFollows(st, later.AddModule(cfg, target, items), target, imported)
  {
    AddedElsewhere(cfg, later, target, items);
  }

  /** Resolving an import is following its target. */
  lemma ResolvesThrough(
      cfg: Config, w: World, u: set<Key>, st: Reader, name: string, from: Path, target: Path, imported: string,
      seen: set<Key>, depth: nat)
    requires IsImport(cfg, w, st, name, from, target, imported) && w.TextAt(target).Some?
    requires (from, name) !in seen && depth <= MAX_ALIAS_DEPTH
    ensures var source := w.TextAt(target).value;
            var (found, after) :=
              ImportedDeclaration(cfg, w, u, Followed(cfg, w, st, name, from, target), target, source, imported);
            Resolve(cfg, w, u, st, name, from, seen, depth) ==
              if found.Thrown? then (Thrown, after)
              else if found.value.None? then (Done(None), after)
              else
                var declared := found.value.value;
                (Done(Some((declared.decl, declared.path))), after.AddModule(cfg, declared.path, declared.items))
  {
    hide ImportedDeclaration, Probe;
  }

  lemma ImportedHere(cfg: Config, w: World, u: set<Key>, st: Reader, target: Path, imported: string)
    requires DeclaresTag(cfg, w, target, imported) && (target, imported) in u
    ensures var source := w.TextAt(target).value;
            var items := cfg.parse(source).value;
            ImportedDeclaration(cfg, w, u, st, target, source, imported) ==
              if (target, imported) in st.followed then (Done(None), st)
              else
                (Done(Some(Found(DeclaredIn(items, imported).value, target, items))),
                 st.(followed := st.followed + {(target, imported)}))
  {
    hide Behind;
  }

  lemma ImportIsHidden(
      cfg: Config, w: World, u: set<Key>, st: Reader, name: string, from: Path, target: Path, imported: string)
    requires IsTagImport(cfg, w, u, st, name, from, target, imported) && (target, imported) in st.followed
    ensures Eventually(cfg, w, u, st, name, from, {}).0 == Done(false)
    ensures OnlyFollows(st, Eventually(cfg, w, u, st, name, from, {}).1, target, imported)
  {
    ImportResolves(cfg, w, u, st, name, from, target, imported, {}, 0);
    hide Resolve;
  }

  lemma StaysImport(
      cfg: Config, w: World, u: set<Key>, st: Reader, later: Reader, through: Key,
      name: string, from: Path, target: Path, imported: string)
    requires IsTagImport(cfg, w, u, st, name, from, target, imported) && OnlyFollows(st, later, through.0, through.1)
    requires from != through.0
    ensures IsTagImport(cfg, w, u, later, name, from, target, imported)
  {
    hide Probe;
    assert (from, name) in later.typeImports && later.typeImports[(from, name)] == st.typeImports[(from, name)];
  }

  /**
   * A property whose type is an import of an alias of `AttrTag` is an attribute
   * tag exactly when that import has not been followed before in the read, and
   * an ordinary prop otherwise.
   */
  lemma ImportIsTagExactly(
      cfg: Config, w: World, u: set<Key>, st: Reader, name: string, from: Path, target: Path, imported: string)
    requires IsTagImport(cfg, w, u, st, name, from, target, imported)
    ensures var (class', after) := Classify(cfg, w, u, st, Ref(name), false, from, {}, 0);
            var t := DeclaredIn(cfg.parse(w.TextAt(target).value).value, imported).value.type';
            class' == Done(
              if (target, imported) in st.followed then Ordinary
              else Declared(if Unwrap(t).1 then Array else Required)) &&
            OnlyFollows(st, after, target, imported)
  {
    hide Resolve, Eventually, Probe, Classify, Unwrap, IsImport, KeepsAttrTag, DeclaredIn, OnlyFollows;
    ImportResolves(cfg, w, u, st, name, from, target, imported, {}, 1);
    FollowsMore(st, Resolve(cfg, w, u, st, name, from, {}, 1).1, target, imported);
    ClassifyReference(cfg, w, u, st, name, from);
    var (resolved, st1) := Resolve(cfg, w, u, st, name, from, {}, 1);
    if (target, imported) in st.followed {
      StaysImport(cfg, w, u, st, st1, (target, imported), name, from, target, imported);
      ImportIsHidden(cfg, w, u, st1, name, from, target, imported);
      OnlyFollowsTwice(st, st1, Eventually(cfg, w, u, st1, name, from, {}).1, target, imported);
    }
    assert DeclaredIn(cfg.parse(w.TextAt(target).value).value, imported).value.Alias?;
    hide *;
  }

  lemma FollowsMore(st: Reader, later: Reader, target: Path, imported: string)
    requires OnlyFollows(st, later, target, imported)
    ensures later.followed == st.followed + {(target, imported)} && later.shadowed == st.shadowed
  {
  }

  lemma OnlyFollowsTwice(st: Reader, later: Reader, last: Reader, target: Path, imported: string)
    requires OnlyFollows(st, later, target, imported) && OnlyFollows(later, last, target, imported)
    ensures OnlyFollows(st, last, target, imported)
  {
  }

  /** How a reference that resolves to an alias of `AttrTag`, or not at all, is classified. */
  lemma ClassifyReference(cfg: Config, w: World, u: set<Key>, st: Reader, name: string, from: Path)
    ensures var (resolved, st1) := Resolve(cfg, w, u, st, name, from, {}, 1);
            var classified := Classify(cfg, w, u, st, Ref(name), false, from, {}, 0);
            (resolved == Done(None) && Eventually(cfg, w, u, st1, name, from, {}).0 == Done(false) ==>
              classified == (Done(Ordinary), Eventually(cfg, w, u, st1, name, from, {}).1)) &&
            (resolved.Done? && resolved.value.Some? && resolved.value.value.0.Alias? ==>
              var (decl, path) := resolved.value.value;
              Unwrap(decl.type').0.AttrTag? && path !in st1.shadowed ==>
                classified == (Done(Declared(if Unwrap(decl.type').1 then Array else Required)), st1))
  {
    hide Resolve, Eventually;
    assert Unwrap(Ref(name)) == (Ref(name), false);
  }

  // ---- through the members of one `Input`

  /** Members whose types are imports of aliases of `AttrTag`; `imports` says what each name imports. */
  ghost predicate AreTagImports(
      cfg: Config, w: World, u: set<Key>, st: Reader, members: seq<Member>, from: Path, imports: map<string, Key>)
  {
    forall m <- members :: m.type'.Ref? && m.type'.name in imports &&
      IsTagImport(cfg, w, u, st, m.type'.name, from, imports[m.type'.name].0, imports[m.type'.name].1)
  }

  /** The class of a first use of an import. */
  ghost function TagClass(cfg: Config, w: World, m: Member, key: Key): Class
    requires DeclaresTag(cfg, w, key.0, key.1)
  {
    var t := DeclaredIn(cfg.parse(w.TextAt(key.0).value).value, key.1).value.type';
    Declared(if Unwrap(t).1 then Array else if m.optional then OptionalOne else Required)
  }

  /** The class of a property whose type is an import: `followed` are those followed before. */
  ghost function UseClass(cfg: Config, w: World, followed: set<Key>, m: Member, key: Key): Class
    requires DeclaresTag(cfg, w, key.0, key.1)
  {
    if key in followed then Ordinary else TagClass(cfg, w, m, key)
  }

  /** One property: its class, and the state after it. */
  lemma OneImport(
      cfg: Config, w: World, u: set<Key>, st: Reader, m: Member, from: Path, key: Key, rest: seq<Member>)
    requires m.type'.Ref? && IsTagImport(cfg, w, u, st, m.type'.name, from, key.0, key.1)
    ensures var st1 := Classify(cfg, w, u, st, m.type', false, from, {}, 0).1;
            var (others, st2) := ClassifyMembers(cfg, w, u, st1, rest, from);
            OnlyFollows(st, st1, key.0, key.1) &&
            ClassifyMembers(cfg, w, u, st, [m] + rest, from) ==
              if others.Thrown? then (Thrown, st2)
              else (Done([(m.name, UseClass(cfg, w, st.followed, m, key))] + others.value), st2)
  {
    ImportIsTagExactly(cfg, w, u, st, m.type'.name, from, key.0, key.1);
    assert key == (key.0, key.1) && ([m] + rest)[1..] == rest;
    hide Classify, IsTagImport, Unwrap, DeclaredIn, OnlyFollows;
  }

  /** No member before `i` imports what member `i` does. */
  ghost predicate IsFirstUse(members: seq<Member>, imports: map<string, Key>, i: nat)
    requires i < |members| && forall m <- members :: m.type'.Ref? && m.type'.name in imports
  {
    forall j :: 0 <= j < i ==> imports[members[j].type'.name] != imports[members[i].type'.name]
  }

  /** The classes of the members in turn. */
  ghost function Classes(cfg: Config, w: World, followed: set<Key>, members: seq<Member>, imports: map<string, Key>)
    : (classes: seq<(string, Class)>)
    requires AllTags(cfg, w, members, imports)
    ensures |classes| == |members|
    decreases |members|
  {
    if members == [] then []
    else
      assert members[0] in members && forall m <- members[1..] :: m in members;
      var key := imports[members[0].type'.name];
      [(members[0].name, UseClass(cfg, w, followed, members[0], key))] +
      Classes(cfg, w, followed + {key}, members[1..], imports)
  }

  ghost predicate AllTags(cfg: Config, w: World, members: seq<Member>, imports: map<string, Key>) {
    forall m <- members :: m.type'.Ref? && m.type'.name in imports &&
      DeclaresTag(cfg, w, imports[m.type'.name].0, imports[m.type'.name].1)
  }

  lemma {:induction false} MembersAreClasses(
      cfg: Config, w: World, u: set<Key>, st: Reader, members: seq<Member>, from: Path, imports: map<string, Key>)
    requires AreTagImports(cfg, w, u, st, members, from, imports)
    ensures AllTags(cfg, w, members, imports)
    ensures ClassifyMembers(cfg, w, u, st, members, from).0 == Done(Classes(cfg, w, st.followed, members, imports))
    decreases |members|
  {
    assert AllTags(cfg, w, members, imports);
    if members != [] {
      var m, rest := members[0], members[1..];
      assert m in members && members == [m] + rest;
      var key := imports[m.type'.name];
      OneImport(cfg, w, u, st, m, from, key, rest);
      var st1 := Classify(cfg, w, u, st, m.type', false, from, {}, 0).1;
      StillTagImports(cfg, w, u, st, st1, key, members, rest, from, imports);
      FollowsMore(st, st1, key.0, key.1);
      hide ClassifyMembers, Classify, IsTagImport, OnlyFollows, UseClass;
      MembersAreClasses(cfg, w, u, st1, rest, from, imports);
    }
  }

  lemma {:induction false} ClassOfUse(
      cfg: Config, w: World, followed: set<Key>, members: seq<Member>, imports: map<string, Key>, i: nat)
    requires AllTags(cfg, w, members, imports) && i < |members|
    ensures var m := members[i];
            Classes(cfg, w, followed, members, imports)[i] ==
              (m.name, if IsFirstUse(members, imports, i) then UseClass(cfg, w, followed, m, imports[m.type'.name])
              else Ordinary)
    decreases i
  {
    hide TagClass, DeclaresTag;
    assert members[i] in members;
    if i > 0 {
      FirstUseInRest(members, imports, i);
      ClassOfUse(cfg, w, followed + {imports[members[0].type'.name]}, members[1..], imports, i - 1);
    }
  }

  /**
   * Of the properties that import one attribute tag, the first is an attribute
   * tag and every later one an ordinary prop.
   */
  lemma FirstUsesAreTags(
      cfg: Config, w: World, u: set<Key>, st: Reader, members: seq<Member>, from: Path, imports: map<string, Key>,
      i: nat)
    requires AreTagImports(cfg, w, u, st, members, from, imports) && i < |members|
    ensures var classes := ClassifyMembers(cfg, w, u, st, members, from).0;
            var m := members[i];
            classes.Done? && |classes.value| == |members| && m in members &&
            classes.value[i] == (
              m.name,
              if IsFirstUse(members, imports, i) then UseClass(cfg, w, st.followed, m, imports[m.type'.name])
              else Ordinary)
  {
    assert members[i] in members;
    MembersAreClasses(cfg, w, u, st, members, from, imports);
    ClassOfUse(cfg, w, st.followed, members, imports, i);
    hide ClassifyMembers, Classes, UseClass;
  }

  lemma FirstUseInRest(members: seq<Member>, imports: map<string, Key>, i: nat)
    requires 0 < i < |members| && forall m <- members :: m.type'.Ref? && m.type'.name in imports
    ensures (forall m <- members[1..] :: m in members) && members[i] == members[1..][i - 1]
    ensures IsFirstUse(members, imports, i) <==>
              IsFirstUse(members[1..], imports, i - 1) &&
                imports[members[i].type'.name] != imports[members[0].type'.name]
  {
    assert forall j :: 0 < j < i ==> members[j] == members[1..][j - 1];
    assert forall j :: 0 <= j < i - 1 ==> members[1..][j] == members[j + 1];
  }

  lemma StillTagImports(
      cfg: Config, w: World, u: set<Key>, st: Reader, later: Reader, through: Key,
      members: seq<Member>, rest: seq<Member>, from: Path, imports: map<string, Key>)
    requires AreTagImports(cfg, w, u, st, members, from, imports) && OnlyFollows(st, later, through.0, through.1)
    requires from != through.0 && forall n <- rest :: n in members
    ensures AreTagImports(cfg, w, u, later, rest, from, imports)
  {
    forall n | n in rest
      ensures IsTagImport(cfg, w, u, later, n.type'.name, from, imports[n.type'.name].0, imports[n.type'.name].1)
    {
      StaysImport(cfg, w, u, st, later, through, n.type'.name, from, imports[n.type'.name].0, imports[n.type'.name].1);
    }
  }

  lemma {:induction false} MembersInTurn(
      cfg: Config, w: World, u: set<Key>, st: Reader, members: seq<Member>, m: Member, from: Path)
    requires ClassifyMembers(cfg, w, u, st, members, from).0.Done?
    ensures var (before, st1) := ClassifyMembers(cfg, w, u, st, members, from);
            var one := ClassifyMembers(cfg, w, u, st1, [m], from).0;
            ClassifyMembers(cfg, w, u, st, members + [m], from).0 ==
              if one.Thrown? then Thrown else Done(before.value + one.value)
    decreases |members|
  {
    hide Classify;
    if members == [] {
      assert members + [m] == [m];
      var one := ClassifyMembers(cfg, w, u, st, [m], from).0;
      assert one.Done? ==> [] + one.value == one.value;
    } else {
      var st1 := Classify(cfg, w, u, st, members[0].type', false, from, {}, 0).1;
      assert (members + [m])[0] == members[0] && (members + [m])[1..] == members[1..] + [m];
      MembersInTurn(cfg, w, u, st1, members[1..], m, from);
      var (before, st2) := ClassifyMembers(cfg, w, u, st1, members[1..], from);
      var one := ClassifyMembers(cfg, w, u, st2, [m], from).0;
      var first := ClassifyMembers(cfg, w, u, st, members, from).0.value[0];
      assert one.Done? ==> [first] + before.value + one.value == [first] + (before.value + one.value);
    }
  }

  /**
   * After any members whatever, a property that imports an alias of `AttrTag` is
   * an attribute tag exactly when none of them has followed that import.
   */
  lemma NextMemberIsTagExactly(
      cfg: Config, w: World, u: set<Key>, st: Reader, members: seq<Member>, m: Member, from: Path, target: Path,
      imported: string)
    requires ClassifyMembers(cfg, w, u, st, members, from).0.Done? && m.type'.Ref?
    requires IsTagImport(cfg, w, u, ClassifyMembers(cfg, w, u, st, members, from).1, m.type'.name, from, target,
      imported)
    ensures var (before, st1) := ClassifyMembers(cfg, w, u, st, members, from);
            var all := ClassifyMembers(cfg, w, u, st, members + [m], from).0;
            all.Done? && |all.value| == |before.value| + 1 && all.value[..|before.value|] == before.value &&
            var last := all.value[|before.value|].1;
            if (target, imported) in st1.followed then last == Ordinary else last.Declared?
  {
    var st1 := ClassifyMembers(cfg, w, u, st, members, from).1;
    MembersInTurn(cfg, w, u, st, members, m, from);
    ImportIsTagExactly(cfg, w, u, st1, m.type'.name, from, target, imported);
    hide Classify, IsTagImport;
    assert [m][1..] == [];
    var one := ClassifyMembers(cfg, w, u, st1, [m], from).0;
    assert one.Done? && |one.value| == 1;
  }

  const TWO_USES: seq<Member> := [Member("a", Ref("Item"), false), Member("b", Ref("Item"), false)]

  /** `import type { Item } from "./item"; export interface Input { a: Item; b: Item }` */
  const CALLEE: Module := [ImportType("Item", "Item", "./item"), Declare(true, "Input", Interface(TWO_USES))]

  /** `export type Item = AttrTag` */
  const ITEM: Module := [Declare(true, "Item", Alias(AttrTag))]

  /** Two members of one imported type, classified one after the other. */
  lemma TwoMembersOfOneImport(cfg: Config, w: World, u: set<Key>, st: Reader, from: Path, target: Path)
    requires IsTagImport(cfg, w, u, st, "Item", from, target, "Item") && (target, "Item") !in st.followed
    requires DeclaredIn(cfg.parse(w.TextAt(target).value).value, "Item") == Some(Alias(AttrTag))
    ensures ClassifyMembers(cfg, w, u, st, TWO_USES, from).0 == Done([("a", Declared(Required)), ("b", Ordinary)])
  {
    var a, b := Member("a", Ref("Item"), false), Member("b", Ref("Item"), false);
    var members, key := TWO_USES, (target, "Item");
    var imports := map["Item" := key];
    assert AreTagImports(cfg, w, u, st, members, from, imports) by {
      hide IsTagImport;
      assert forall m <- members :: m == a || m == b;
    }
    FirstUsesAreTags(cfg, w, u, st, members, from, imports, 0);
    FirstUsesAreTags(cfg, w, u, st, members, from, imports, 1);
    assert TagClass(cfg, w, a, key) == Declared(Required);
    hide ClassifyMembers, IsTagImport, TagClass, DeclaresTag, AreTagImports;
    assert IsFirstUse(members, imports, 0);
    assert imports[members[0].type'.name] == imports[members[1].type'.name] && !IsFirstUse(members, imports, 1);
    var classes := ClassifyMembers(cfg, w, u, st, members, from).0.value;
    assert classes == [classes[0], classes[1]];
  }

  /** Every name a callee writes and every name its import writes is looked up in the universe. */
  lemma BothFilesInUniverse(cfg: Config, w: World, callee: Path, target: Path)
    requires w.TextAt(callee).Some? && cfg.parse(w.TextAt(callee).value) == Some(CALLEE) && w.TextAt(target).Some?
    ensures (callee, "Item") in Universe(cfg, w) && (target, "Item") in Universe(cfg, w)
  {
    assert CALLEE[0] == ImportType("Item", "Item", "./item") && "Item" in ItemNames(CALLEE[0]);
    assert "Item" in NamesIn(ModuleAt(cfg, w, callee));
    NamesThere(cfg, w, callee);
  }

  /** The analyzer as it begins to classify the members of that callee. */
  lemma CalleeStarts(cfg: Config, callee: Path, source: Text)
    ensures var st := Start(callee, source).AddModule(cfg, callee, CALLEE);
            (callee, "Item") !in st.declarations && st.followed == {} &&
            st.shadowed == {} && (callee, "Item") in st.typeImports &&
            st.typeImports[(callee, "Item")] == TypeImport("./item", "Item")
  {
    assert CALLEE[1..] == [CALLEE[1]] && CALLEE[1..][1..] == [];
    var st1 := Start(callee, source).AddItem(cfg, callee, CALLEE[0]);
    assert st1.AddModule(cfg, callee, CALLEE[1..]) == st1.AddItem(cfg, callee, CALLEE[1]);
  }

  /**
   * A callee that gives the imported `Item`, an alias of `AttrTag`, to two
   * properties: wherever the import is found, the read answers an attribute tag
   * and an ordinary prop.
   */
  lemma TwoUsesOfOneImport(cfg: Config, w: World, callee: Path, target: Path)
    requires w.TextAt(callee).Some? && cfg.parse(w.TextAt(callee).value) == Some(CALLEE)
    requires Probe(w, cfg.Candidates(cfg.join(callee, "./item"))).0 == Some(target) && target != callee
    requires cfg.followable(target) && cfg.parse(w.TextAt(target).value) == Some(ITEM)
    ensures Read(cfg, w, callee).0 == Members([("a", Declared(Required)), ("b", Ordinary)])
  {
    var source, u := w.TextAt(callee).value, Universe(cfg, w);
    var st := Start(callee, source).AddModule(cfg, callee, CALLEE);
    CalleeStarts(cfg, callee, source);
    BothFilesInUniverse(cfg, w, callee, target);
    assert DeclaredIn(ITEM, "Item") == Some(Alias(AttrTag)) && Unwrap(AttrTag) == (AttrTag, false);
    assert KeepsAttrTag(cfg, ITEM);
    assert IsTagImport(cfg, w, u, st, "Item", callee, target, "Item");
    assert FindInput(CALLEE) == Some(TWO_USES) by {
      assert CALLEE[1..][0] == CALLEE[1];
    }
    hide ClassifyMembers, IsTagImport, Universe;
    TwoMembersOfOneImport(cfg, w, u, st, callee, target);
  }
}
