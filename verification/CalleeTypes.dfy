/**
 * What the steps of a callee read are, told of the module and the types as they
 * are written (packages/core/src/callee-input.ts).
 */
module CalleeTypes {
  import opened CalleeInput
  import opened Wrappers

  // ---- the candidates of a probe

  lemma {:induction false} ExtendedInPlace(cfg: Config, base: Path, k: nat)
    requires k <= |cfg.extensions|
    ensures |cfg.WithExtensions(base, k)| == |cfg.IndexFiles(base, k)| == |cfg.extensions| - k
    ensures forall i :: 0 <= i < |cfg.extensions| - k ==> cfg.WithExtensions(base, k)[i] == base + cfg.extensions[k + i]
    ensures forall i :: 0 <= i < |cfg.extensions| - k ==>
      cfg.IndexFiles(base, k)[i] == cfg.index(base, cfg.extensions[k + i])
    decreases |cfg.extensions| - k
  {
    if k < |cfg.extensions| {
      ExtendedInPlace(cfg, base, k + 1);
    }
  }

  /**
   * Probed in order: the path itself, the path with each extension, then the
   * index file without an extension and with each.
   */
  lemma CandidatesInPlace(cfg: Config, base: Path)
    ensures var candidates, n := cfg.Candidates(base), |cfg.extensions|;
            |candidates| == 2 * n + 2 && candidates[0] == base && candidates[n + 1] == cfg.index(base, "") &&
            (forall i :: 0 <= i < n ==> candidates[1 + i] == base + cfg.extensions[i]) &&
            forall i :: 0 <= i < n ==> candidates[n + 2 + i] == cfg.index(base, cfg.extensions[i])
  {
    ExtendedInPlace(cfg, base, 0);
  }

  // ---- what a file adds to the reader

  predicate DeclaresIt(item: Item, name: string) { item.Declare? && item.name == name }

  predicate ImportsIt(item: Item, name: string) { item.ImportType? && item.local == name }

  /** The item makes `AttrTag` another type in its file. */
  predicate Shadows(cfg: Config, item: Item) {
    DeclaresIt(item, "AttrTag") || (ImportsIt(item, "AttrTag") && item.specifier !in cfg.attrTagSources)
  }

  /** The last declaration and the last import of a name in the file are the ones kept. */
  lemma {:induction false} ModuleIsAdded(cfg: Config, st: Reader, from: Path, items: Module, name: string)
    ensures KeptDeclaration(st, st.AddModule(cfg, from, items), from, items, name)
    ensures KeptImport(st, st.AddModule(cfg, from, items), from, items, name)
    decreases |items|
  {
    if items != [] {
      var next := st.AddItem(cfg, from, items[0]);
      ModuleIsAdded(cfg, next, from, items[1..], name);
      var later := next.AddModule(cfg, from, items[1..]);
      DeclarationStep(cfg, st, later, from, items, name);
      ImportStep(cfg, st, later, from, items, name);
      hide KeptDeclaration, KeptImport;
    }
  }

  /** A file whose own item makes `AttrTag` another type is remembered, and no other file's entries change. */
  lemma {:induction false} ShadowsAreAdded(cfg: Config, st: Reader, from: Path, items: Module, k: Key)
    ensures var later := st.AddModule(cfg, from, items);
            (k.0 in later.shadowed <==>
              k.0 in st.shadowed || (k.0 == from && exists item <- items :: Shadows(cfg, item))) &&
            (k.0 != from ==> SameKey(st, later, k))
    decreases |items|
  {
    if items != [] {
      ShadowsAreAdded(cfg, st.AddItem(cfg, from, items[0]), from, items[1..], k);
      ShadowStep(cfg, st, from, items[0], k);
      SomeShadows(cfg, items);
    }
  }

  lemma ShadowStep(cfg: Config, st: Reader, from: Path, item: Item, k: Key)
    ensures var next := st.AddItem(cfg, from, item);
            (k.0 in next.shadowed <==> k.0 in st.shadowed || (k.0 == from && Shadows(cfg, item))) &&
            (k.0 != from ==> SameKey(st, next, k))
  {
  }

  lemma SomeShadows(cfg: Config, items: Module)
    requires items != []
    ensures (exists item <- items :: Shadows(cfg, item)) <==>
      Shadows(cfg, items[0]) || exists item <- items[1..] :: Shadows(cfg, item)
  {
    assert forall it :: it in items <==> it == items[0] || it in items[1..];
  }

  lemma DeclarationStep(cfg: Config, st: Reader, later: Reader, from: Path, items: Module, name: string)
    requires items != [] && KeptDeclaration(st.AddItem(cfg, from, items[0]), later, from, items[1..], name)
    ensures KeptDeclaration(st, later, from, items, name)
  {
    var rest := items[1..];
    assert forall i :: 0 < i < |items| ==> items[i] == rest[i - 1];
    if exists item <- rest :: DeclaresIt(item, name) {
      var i :| 0 <= i < |rest| && DeclaresIt(rest[i], name) && later.declarations[(from, name)] == rest[i].decl &&
        forall j :: i < j < |rest| ==> !DeclaresIt(rest[j], name);
      assert items[i + 1] == rest[i] && items[i + 1] in items;
    } else {
      assert forall i :: 0 < i < |items| ==> !DeclaresIt(items[i], name);
      assert items[0] in items;
    }
  }

  lemma ImportStep(cfg: Config, st: Reader, later: Reader, from: Path, items: Module, name: string)
    requires items != [] && KeptImport(st.AddItem(cfg, from, items[0]), later, from, items[1..], name)
    ensures KeptImport(st, later, from, items, name)
  {
    var rest := items[1..];
    assert forall i :: 0 < i < |items| ==> items[i] == rest[i - 1];
    if exists item <- rest :: ImportsIt(item, name) {
      var i :| 0 <= i < |rest| && ImportsIt(rest[i], name) &&
        later.typeImports[(from, name)] == TypeImport(rest[i].specifier, rest[i].imported) &&
        forall j :: i < j < |rest| ==> !ImportsIt(rest[j], name);
      assert items[i + 1] == rest[i] && items[i + 1] in items;
    } else {
      assert forall i :: 0 < i < |items| ==> !ImportsIt(items[i], name);
      assert items[0] in items;
    }
  }

  ghost predicate SameKey(st: Reader, later: Reader, k: Key) {
    (k in later.declarations <==> k in st.declarations) && (k in later.typeImports <==> k in st.typeImports) &&
    (k in st.declarations ==> later.declarations[k] == st.declarations[k]) &&
    (k in st.typeImports ==> later.typeImports[k] == st.typeImports[k])
  }

  ghost predicate KeptDeclaration(st: Reader, later: Reader, from: Path, items: Module, name: string) {
    var k := (from, name);
    if exists item <- items :: DeclaresIt(item, name) then
      k in later.declarations &&
      exists i :: 0 <= i < |items| && DeclaresIt(items[i], name) && later.declarations[k] == items[i].decl &&
        forall j :: i < j < |items| ==> !DeclaresIt(items[j], name)
    else
      (k in later.declarations <==> k in st.declarations) &&
      (k in st.declarations ==> later.declarations[k] == st.declarations[k])
  }

  ghost predicate KeptImport(st: Reader, later: Reader, from: Path, items: Module, name: string) {
    var k := (from, name);
    if exists item <- items :: ImportsIt(item, name) then
      k in later.typeImports &&
      exists i :: 0 <= i < |items| && ImportsIt(items[i], name) &&
        later.typeImports[k] == TypeImport(items[i].specifier, items[i].imported) &&
        forall j :: i < j < |items| ==> !ImportsIt(items[j], name)
    else
      (k in later.typeImports <==> k in st.typeImports) &&
      (k in st.typeImports ==> later.typeImports[k] == st.typeImports[k])
  }

  /** `Input` is the first exported declaration of that name, and its members are those of an interface or a literal. */
  lemma {:induction false} InputIsFirstExported(items: Module)
    ensures FindInput(items).Some? <==> exists item <- items :: ExportsInput(item)
    ensures FindInput(items).Some? ==>
      exists i :: 0 <= i < |items| && ExportsInput(items[i]) && HasMembers(items[i].decl, FindInput(items).value) &&
        forall j :: 0 <= j < i ==> !ExportsInput(items[j])
    decreases |items|
  {
    if items != [] {
      InputIsFirstExported(items[1..]);
      if ExportsInput(items[0]) {
        assert items[0] in items && HasMembers(items[0].decl, FindInput(items).value);
      } else if FindInput(items).Some? {
        var i :| 0 <= i < |items[1..]| && ExportsInput(items[1..][i]) &&
          HasMembers(items[1..][i].decl, FindInput(items).value) &&
          forall j :: 0 <= j < i ==> !ExportsInput(items[1..][j]);
        assert items[i + 1] == items[1..][i];
        assert forall j :: 0 < j < i + 1 ==> items[j] == items[1..][j - 1];
      }
      assert forall item :: item in items <==> item == items[0] || item in items[1..];
    }
  }

  predicate ExportsInput(item: Item) { item.Declare? && item.exported && item.name == "Input" }

  predicate HasMembers(decl: Decl, members: seq<Member>) {
    decl == Interface(members) || decl == Alias(Literal(members)) ||
    (decl.Alias? && !decl.type'.Literal? && members == [])
  }

  // ---- types

  /** `t` inside `n` array wrappers. */
  function Wrapped(t: Type, n: nat): Type { if n == 0 then t else ArrayOf(Wrapped(t, n - 1)) }

  lemma {:induction false} UnwrapIsExact(t: Type, n: nat)
    requires !t.ArrayOf?
    ensures Unwrap(Wrapped(t, n)) == (t, n > 0)
  {
    if n > 0 {
      UnwrapIsExact(t, n - 1);
    }
  }

  /** The type written at a place inside `t`: into an array's element, or into a literal's member. */
  function TypeAt(t: Type, place: seq<nat>): Option<Type>
    decreases |place|
  {
    if place == [] then Some(t)
    else
      match t
      case ArrayOf(element) => TypeAt(element, place[1..])
      case Literal(members) => if place[0] < |members| then TypeAt(members[place[0]].type', place[1..]) else None
      case _ => None
  }

  /** `AttrTag` is written somewhere inside the type. */
  ghost predicate Mentions(t: Type) { exists place: seq<nat> :: TypeAt(t, place) == Some(AttrTag) }

  lemma MentionedBelow(t: Type)
    ensures t.ArrayOf? ==> (Mentions(t) <==> Mentions(t.element))
    ensures t.Literal? ==> (Mentions(t) <==> exists m <- t.members :: Mentions(m.type'))
  {
    if t.ArrayOf? {
      if Mentions(t.element) {
        var place: seq<nat> :| TypeAt(t.element, place) == Some(AttrTag);
        assert ([0] + place)[1..] == place && TypeAt(t, [0] + place) == Some(AttrTag);
      }
      if Mentions(t) {
        var place: seq<nat> :| TypeAt(t, place) == Some(AttrTag);
        assert place != [] && TypeAt(t.element, place[1..]) == Some(AttrTag);
      }
    } else if t.Literal? {
      if m :| m in t.members && Mentions(m.type') {
        var i :| 0 <= i < |t.members| && t.members[i] == m;
        var place: seq<nat> :| TypeAt(m.type', place) == Some(AttrTag);
        assert ([i] + place)[1..] == place && TypeAt(t, [i] + place) == Some(AttrTag);
      }
      if Mentions(t) {
        var place: seq<nat> :| TypeAt(t, place) == Some(AttrTag);
        assert place != [] && TypeAt(t.members[place[0]].type', place[1..]) == Some(AttrTag);
        assert t.members[place[0]] in t.members;
      }
    }
  }

  /** A type contains `AttrTag` exactly when it is written somewhere inside it. */
  lemma {:induction false} ContainsIsMention(t: Type)
    ensures ContainsAttrTag(t) <==> Mentions(t)
    decreases t
  {
    MentionedBelow(t);
    match t
    case AttrTag => assert TypeAt(t, []) == Some(AttrTag);
    case ArrayOf(element) => ContainsIsMention(element);
    case Literal(members) => AnyIsMention(members);
    case _ => assert forall place: seq<nat> :: place != [] ==> TypeAt(t, place) == None;
  }

  lemma {:induction false} AnyIsMention(members: seq<Member>)
    ensures AnyContainsAttrTag(members) <==> exists m <- members :: Mentions(m.type')
    decreases members
  {
    if members != [] {
      MemberIsMention(members[0]);
      AnyIsMention(members[1..]);
      hide Mentions;
      assert forall m :: m in members <==> m == members[0] || m in members[1..];
    }
  }

  lemma {:induction false} MemberIsMention(m: Member)
    ensures MemberContainsAttrTag(m) <==> Mentions(m.type')
    decreases m
  {
    ContainsIsMention(m.type');
  }

  // ---- classes

  /**
   * A property whose type is written without a name: `AttrTag` is an attribute
   * tag where it means that type, several of them in an array; an `AttrTag`
   * inside anything else is an error; and the rest is an ordinary prop.
   */
  lemma ClassOfWritten(cfg: Config, w: World, u: set<Key>, st: Reader, t: Type, n: nat, file: Path)
    requires !t.ArrayOf? && !t.Ref?
    ensures Classify(cfg, w, u, st, Wrapped(t, n), false, file, {}, 0) == (Done(
      if t.AttrTag? && file in st.shadowed then Ordinary
      else if t.AttrTag? then Declared(if n > 0 then Array else Required)
      else if Mentions(t) then NotLiteral
      else Ordinary), st)
  {
    UnwrapIsExact(t, n);
    ContainsIsMention(t);
    hide Mentions;
  }

  /** A reference to an interface is an ordinary prop, one to an alias what the alias is, in more arrays if need be. */
  lemma ClassOfReference(
      cfg: Config, w: World, u: set<Key>, st: Reader, name: string, n: nat, many: bool, file: Path, seen: set<Key>,
      depth: nat)
    requires depth < MAX_ALIAS_DEPTH && (file, name) !in seen && (file, name) in st.declarations
    ensures var decl := st.declarations[(file, name)];
            Classify(cfg, w, u, st, Wrapped(Ref(name), n), many, file, seen, depth) ==
              if decl.Interface? then (Done(Ordinary), st)
              else Classify(cfg, w, u, st, decl.type', many || n > 0, file, seen + {(file, name)}, depth + 1)
  {
    UnwrapIsExact(Ref(name), n);
  }

  /** The class of a member whose type is `one`: only a single tag becomes optional. */
  ghost predicate IsClassOf(
      cfg: Config, w: World, u: set<Key>, st: Reader, m: Member, file: Path, named: (string, Class))
  {
    var class' := Classify(cfg, w, u, st, m.type', false, file, {}, 0).0;
    named.0 == m.name && class'.Done? &&
    named.1 == if m.optional && class' == Done(Declared(Required)) then Declared(OptionalOne) else class'.value
  }

  /** The class a member has for a reader that has got so far. */
  ghost predicate HasClass(cfg: Config, w: World, u: set<Key>, m: Member, file: Path, named: (string, Class)) {
    exists st: Reader :: IsClassOf(cfg, w, u, st, m, file, named)
  }

  /** The members keep their names and order, and each is classified by itself. */
  lemma {:induction false} MembersInOrder(
      cfg: Config, w: World, u: set<Key>, st: Reader, members: seq<Member>, file: Path)
    ensures var classes := ClassifyMembers(cfg, w, u, st, members, file).0;
            classes.Done? ==>
              |classes.value| == |members| &&
              forall i :: 0 <= i < |members| ==> HasClass(cfg, w, u, members[i], file, classes.value[i])
    decreases |members|
  {
    hide Classify;
    if members != [] {
      var st1 := Classify(cfg, w, u, st, members[0].type', false, file, {}, 0).1;
      MembersInOrder(cfg, w, u, st1, members[1..], file);
      FirstMember(cfg, w, u, st, members, file);
      hide *;
      var classes := ClassifyMembers(cfg, w, u, st, members, file).0;
      if classes.Done? {
        var others := ClassifyMembers(cfg, w, u, st1, members[1..], file).0.value;
        forall i | 0 <= i < |members| ensures HasClass(cfg, w, u, members[i], file, classes.value[i]) {
          assert i > 0 ==> members[i] == members[1..][i - 1] && classes.value[i] == others[i - 1];
        }
      }
    }
  }

  lemma FirstMember(cfg: Config, w: World, u: set<Key>, st: Reader, members: seq<Member>, file: Path)
    requires members != []
    ensures var classes := ClassifyMembers(cfg, w, u, st, members, file).0;
            var st1 := Classify(cfg, w, u, st, members[0].type', false, file, {}, 0).1;
            var others := ClassifyMembers(cfg, w, u, st1, members[1..], file).0;
            classes.Done? ==>
              others.Done? && |classes.value| == 1 + |others.value| && classes.value[1..] == others.value &&
              HasClass(cfg, w, u, members[0], file, classes.value[0])
  {
    hide Classify;
    var classes := ClassifyMembers(cfg, w, u, st, members, file).0;
    assert classes.Done? ==> IsClassOf(cfg, w, u, st, members[0], file, classes.value[0]);
  }

  // ---- an `AttrTag` beyond the alias depth

  /** The name after `name` on a chain of aliases in one file, if its declaration is a reference. */
  function NextName(st: Reader, file: Path, name: string): Option<string> {
    if (file, name) in st.declarations && st.declarations[(file, name)].Alias? &&
       st.declarations[(file, name)].type'.Ref?
    then Some(st.declarations[(file, name)].type'.name)
    else None
  }

  /** A chain of aliases in one file, none of them twice. */
  ghost predicate IsChain(st: Reader, file: Path, seen: set<Key>, chain: seq<string>)
    decreases |chain|
  {
    chain != [] && (file, chain[0]) !in seen &&
    (|chain| > 1 ==>
      NextName(st, file, chain[0]) == Some(chain[1]) && IsChain(st, file, seen + {(file, chain[0])}, chain[1..]))
  }

  /** The declaration has an `AttrTag` written somewhere inside it. */
  ghost predicate HoldsTag(st: Reader, file: Path, name: string) {
    (file, name) in st.declarations &&
    match st.declarations[(file, name)]
    case Interface(members) => exists m <- members :: Mentions(m.type')
    case Alias(t) => Mentions(t)
  }

  ghost predicate ReachesTag(st: Reader, file: Path, name: string, seen: set<Key>) {
    exists chain: seq<string> ::
      IsChain(st, file, seen, chain) && chain[0] == name && HoldsTag(st, file, chain[|chain| - 1])
  }

  /** The file imports no types, and what its aliases name is looked up. */
  ghost predicate StaysInFile(st: Reader, u: set<Key>, file: Path) {
    (forall name: string :: (file, name) !in st.typeImports) &&
    forall name: string :: NextName(st, file, name).Some? ==> (file, NextName(st, file, name).value) in u
  }

  /**
   * In a file that imports no types the unbounded search finds an `AttrTag`
   * exactly when a chain of aliases, however long, leads to a declaration that
   * holds one.
   */
  lemma {:induction false} EventuallyIsReached(
      cfg: Config, w: World, u: set<Key>, st: Reader, name: string, file: Path, seen: set<Key>)
    requires StaysInFile(st, u, file) && (file, name) in u
    ensures Eventually(cfg, w, u, st, name, file, seen) == (Done(ReachesTag(st, file, name, seen)), st)
    decreases u - seen
  {
    if (file, name) !in seen {
      if HoldsTag(st, file, name) {
        assert IsChain(st, file, seen, [name]);
      }
      var seen' := seen + {(file, name)};
      var next := NextName(st, file, name);
      if next.Some? {
        EventuallyIsReached(cfg, w, u, st, next.value, file, seen');
        if ReachesTag(st, file, next.value, seen') {
          var chain: seq<string> :| IsChain(st, file, seen', chain) && chain[0] == next.value &&
            HoldsTag(st, file, chain[|chain| - 1]);
          assert ([name] + chain)[1..] == chain && IsChain(st, file, seen, [name] + chain);
        }
      }
      if ReachesTag(st, file, name, seen) {
        var chain: seq<string> :| IsChain(st, file, seen, chain) && chain[0] == name &&
          HoldsTag(st, file, chain[|chain| - 1]);
        if |chain| > 1 {
          assert IsChain(st, file, seen', chain[1..]) && chain[1..][|chain| - 2] == chain[|chain| - 1];
        }
      }
      if (file, name) in st.declarations {
        HoldsIsContains(st, file, name);
      }
    }
  }

  lemma HoldsIsContains(st: Reader, file: Path, name: string)
    requires (file, name) in st.declarations
    ensures HoldsTag(st, file, name) <==>
      match st.declarations[(file, name)]
      case Interface(members) => AnyContainsAttrTag(members)
      case Alias(t) => ContainsAttrTag(t)
  {
    match st.declarations[(file, name)]
    case Interface(members) => AnyIsMention(members);
    case Alias(t) => ContainsIsMention(t);
  }
}
