/**
 * The analyzer of one callee read, which fills its maps and lists as it goes
 * (packages/core/src/callee-input.ts, `InputAnalyzer`). Each method is one of
 * the functions of `CalleeInput` on the state the fields make up.
 */
module CalleeAnalyzer {
  import opened Wrappers
  import opened CalleeInput

  /** What a re-export passes on is written in the file. */
  lemma PassedIsWritten(cfg: Config, w: World, path: Path, source: Text, i: nat, name: string)
    requires w.TextAt(path) == Some(source) && cfg.parse(source).Some? && i < |cfg.parse(source).value|
    requires name in NamesOf(cfg, w) && PassedOn(cfg.parse(source).value[i], name).Some?
    ensures PassedOn(cfg.parse(source).value[i], name).value in NamesOf(cfg, w)
  {
    var items := cfg.parse(source).value;
    assert ModuleAt(cfg, w, path) == items;
    NamesThere(cfg, w, path);
    if items[i].Reexport? {
      ExportedName(items[i].names, name);
      ItemIsIn(items, i);
    }
  }

  lemma {:induction false} ItemIsIn(items: seq<Item>, i: nat)
    requires i < |items|
    ensures ItemNames(items[i]) <= NamesIn(items)
    decreases |items|
  {
    if i > 0 {
      ItemIsIn(items[1..], i - 1);
    }
  }

  /** The loop over re-exports, one item on. */
  lemma BehindStep(cfg: Config, w: World, u: set<Key>, st: Reader, path: Path, items: seq<Item>, i: nat, name: string)
    requires i <= |items|
    ensures i == |items| ==> Behind(cfg, w, u, st, path, items[i..], name) == (Done(None), st)
    ensures i < |items| && PassedOn(items[i], name) == None ==>
              Behind(cfg, w, u, st, path, items[i..], name) == Behind(cfg, w, u, st, path, items[i + 1..], name)
    ensures i < |items| && PassedOn(items[i], name).Some? ==>
              var (next, tried) := Probe(w, cfg.Candidates(cfg.join(path, items[i].specifier)));
              var st1 := st.Ask(path, items[i].specifier, tried);
              Behind(cfg, w, u, st, path, items[i..], name) ==
                if next == None then Behind(cfg, w, u, st1, path, items[i + 1..], name)
                else
                  var (found, st3) := Follow(cfg, w, u, st1, next.value, PassedOn(items[i], name).value);
                  if found.Thrown? || found.value.Some? then (found, st3)
                  else Behind(cfg, w, u, st3, path, items[i + 1..], name)
  {
    hide CalleeInput.ImportedDeclaration, Probe;
    if i < |items| {
      assert items[i..][0] == items[i] && items[i..][1..] == items[i + 1..];
    }
  }

  /** Reads the file a re-export leads to and looks for the name there. */
  function Follow(
      cfg: Config, w: World, u: set<Key>, st: Reader, next: Path, name: string): (Outcome<Option<Found>>, Reader)
    requires w.TextAt(next).Some?
  {
    var text := w.TextAt(next).value;
    CalleeInput.ImportedDeclaration(cfg, w, u, st.(sources := st.sources[next := text]).Depend(next), next, text, name)
  }

  lemma UnwrapAgain(t: Type)
    ensures Unwrap(Unwrap(t).0) == (Unwrap(t).0, false)
  {
  }

  /** Array wrappers may as well be taken off before. */
  lemma ClassifyUnwrapped(
      cfg: Config, w: World, u: set<Key>, st: Reader, t: Type, many: bool, file: Path, seen: set<Key>, depth: nat)
    requires depth <= MAX_ALIAS_DEPTH
    ensures Classify(cfg, w, u, st, t, many, file, seen, depth)
         == Classify(cfg, w, u, st, Unwrap(t).0, many || Unwrap(t).1, file, seen, depth)
  {
    hide Resolve, Eventually;
    UnwrapAgain(t);
  }

  /** Past the depth limit no name resolves. */
  lemma TooDeepIsUnresolved(cfg: Config, w: World, u: set<Key>, st: Reader, name: string, from: Path, seen: set<Key>)
    ensures Resolve(cfg, w, u, st, name, from, seen, MAX_ALIAS_DEPTH + 1) == (Done(None), st)
  {
  }

  class InputAnalyzer {
    const cfg: Config
    const world: World
    var declarations: map<Key, Decl>
    var typeImports: map<Key, TypeImport>
    var shadowed: set<Path>
    var dependencies: seq<Path>
    var reexportsSeen: set<Key>
    var parsedSources: map<Path, Text>
    /** The specifiers followed so far. */
    ghost var asked: seq<(Path, string)>

    constructor (cfg: Config, world: World, path: Path, source: Text)
      ensures this.cfg == cfg && this.world == world && State() == Start(path, source)
    {
      this.cfg, this.world := cfg, world;
      declarations, typeImports, shadowed := map[], map[], {};
      dependencies, reexportsSeen, parsedSources := [path], {}, map[path := source];
      asked := [];
    }

    /** The fields as one value. */
    ghost function State(): Reader
      reads this
    {
      Reader(declarations, typeImports, shadowed, dependencies, reexportsSeen, parsedSources, asked, false)
    }

    /** Everything gathered so far is written in some file. */
    ghost predicate Valid()
      reads this
    {
      InWorld(cfg, world, State())
    }

    method Depend(p: Path)
      modifies this`dependencies
      ensures State() == old(State()).Depend(p)
    {
      if p !in dependencies { dependencies := dependencies + [p]; }
    }

    method DependAll(ps: seq<Path>)
      modifies this`dependencies
      ensures State() == old(State()).DependAll(ps)
    {
      for i := 0 to |ps|
        invariant State().DependAll(ps[i..]) == old(State()).DependAll(ps)
      {
        assert ps[i..][1..] == ps[i + 1..];
        Depend(ps[i]);
      }
    }

    method AddNode(from: Path, item: Item)
      modifies this`declarations, this`typeImports, this`shadowed
      ensures State() == old(State()).AddItem(cfg, from, item)
    {
      match item
      case Declare(_, name, decl) =>
        declarations := declarations[(from, name) := decl];
        if name == "AttrTag" { shadowed := shadowed + {from}; }
      case ImportType(local, imported, specifier) =>
        typeImports := typeImports[(from, local) := TypeImport(specifier, imported)];
        if local == "AttrTag" && specifier !in cfg.attrTagSources { shadowed := shadowed + {from}; }
      case _ =>
    }

    method AddNodes(from: Path, items: seq<Item>)
      modifies this`declarations, this`typeImports, this`shadowed
      ensures State() == old(State()).AddModule(cfg, from, items)
    {
      for i := 0 to |items|
        invariant State().AddModule(cfg, from, items[i..]) == old(State()).AddModule(cfg, from, items)
      {
        assert items[i..][1..] == items[i + 1..];
        AddNode(from, items[i]);
      }
    }

    /** Reads a file that a probe has found, and records it. */
    method Take(next: Path) returns (text: Text)
      requires world.TextAt(next).Some?
      modifies this`dependencies, this`parsedSources
      ensures world.TextAt(next) == Some(text)
      ensures State() == old(State()).(sources := old(State()).sources[next := text]).Depend(next)
    {
      text := world.TextAt(next).value;
      parsedSources := parsedSources[next := text];
      Depend(next);
    }

    /** `importedDeclaration`: the file's own declaration, or the first one behind its re-exports. */
    method ImportedDeclaration(path: Path, source: Text, name: string) returns (r: Outcome<Option<Found>>)
      requires world.TextAt(path) == Some(source) && name in NamesOf(cfg, world)
      modifies this
      ensures (r, State()) ==
        CalleeInput.ImportedDeclaration(cfg, world, Universe(cfg, world), old(State()), path, source, name)
      decreases Universe(cfg, world) - reexportsSeen, 1
    {
      hide Behind;
      assert path in PathsOf(world) && (path, name) in Universe(cfg, world);
      if (path, name) in reexportsSeen { return Done(None); }
      reexportsSeen := reexportsSeen + {(path, name)};
      if cfg.parse(source) == None { return Thrown; }
      var items := cfg.parse(source).value;
      var own := DeclaredIn(items, name);
      if own.Some? { return Done(Some(Found(own.value, path, items))); }
      r := BehindReexports(path, source, items, name);
    }

    /** Its loop over the file's re-exports. */
    method BehindReexports(path: Path, source: Text, items: Module, name: string) returns (r: Outcome<Option<Found>>)
      requires world.TextAt(path) == Some(source) && cfg.parse(source) == Some(items) && name in NamesOf(cfg, world)
      modifies this
      ensures (r, State()) == Behind(cfg, world, Universe(cfg, world), old(State()), path, items, name)
      decreases Universe(cfg, world) - reexportsSeen, 2
    {
      hide CalleeInput.ImportedDeclaration, Behind, Universe, NamesOf, PathsOf, Probe, PassedOn;
      ghost var u := Universe(cfg, world);
      ghost var st := State();
      assert items[0..] == items;
      r := Done(None);
      for i := 0 to |items|
        invariant r == Done(None) && st.followed <= reexportsSeen
        invariant Behind(cfg, world, u, State(), path, items[i..], name) == Behind(cfg, world, u, st, path, items, name)
      {
        BehindStep(cfg, world, u, State(), path, items, i, name);
        var passed := PassedOn(items[i], name);
        if passed == None { continue; }
        PassedIsWritten(cfg, world, path, source, i, name);
        var (next, tried) := Probe(world, cfg.Candidates(cfg.join(path, items[i].specifier)));
        DependAll(tried);
        asked := asked + [(path, items[i].specifier)];
        if next == None { continue; }
        var text := Take(next.value);
        r := ImportedDeclaration(next.value, text, passed.value);
        if r.Thrown? || r.value.Some? { return; }
      }
      BehindStep(cfg, world, u, State(), path, items, |items|, name);
    }

    /** `resolveNamedType` */
    method ResolveNamedType(name: string, from: Path, seen: set<Key>, depth: nat)
      returns (r: Outcome<Option<(Decl, Path)>>)
      requires Valid() && from in PathsOf(world)
      modifies this
      ensures Valid()
      ensures (r, State()) == Resolve(cfg, world, Universe(cfg, world), old(State()), name, from, seen, depth)
      ensures r.Done? && r.value.Some? ==>
        r.value.value.1 in PathsOf(world) && TypeNames(r.value.value.0) <= NamesOf(cfg, world)
    {
      hide CalleeInput.ImportedDeclaration, Universe, NamesOf, PathsOf, TypeNames;
      ResolveStays(cfg, world, State(), name, from, seen, depth);
      if (from, name) in seen || depth > MAX_ALIAS_DEPTH { return Done(None); }
      if (from, name) in declarations { return Done(Some((declarations[(from, name)], from))); }
      if (from, name) !in typeImports { return Done(None); }
      var typeImport := typeImports[(from, name)];
      var (next, tried) := Probe(world, cfg.Candidates(cfg.join(from, typeImport.specifier)));
      DependAll(tried);
      asked := asked + [(from, typeImport.specifier)];
      if next == None || !cfg.followable(next.value) { return Done(None); }
      var text := Take(next.value);
      var found := ImportedDeclaration(next.value, text, typeImport.imported);
      if found.Thrown? { return Thrown; }
      if found.value == None { return Done(None); }
      AddNodes(found.value.value.path, found.value.value.items);
      return Done(Some((found.value.value.decl, found.value.value.path)));
    }

    /** `namedTypeEventuallyContainsAttrTag` */
    method NamedTypeEventuallyContainsAttrTag(name: string, from: Path, seen: set<Key>) returns (r: Outcome<bool>)
      requires Valid() && from in PathsOf(world) && name in NamesOf(cfg, world)
      modifies this
      ensures Valid()
      ensures (r, State()) == Eventually(cfg, world, Universe(cfg, world), old(State()), name, from, seen)
      decreases Universe(cfg, world) - seen
    {
      hide Resolve, InWorld, ContainsAttrTag;
      assert (from, name) in Universe(cfg, world);
      if (from, name) in seen { return Done(false); }
      var resolved := ResolveNamedType(name, from, {}, 0);
      if resolved.Thrown? { return Thrown; }
      if resolved.value == None { return Done(false); }
      var (decl, path) := resolved.value.value;
      match decl
      case Interface(members) => r := Done(AnyContainsAttrTag(members));
      case Alias(t) =>
        if ContainsAttrTag(t) {
          r := Done(true);
        } else if t.Ref? {
          r := NamedTypeEventuallyContainsAttrTag(t.name, path, seen + {(from, name)});
        } else {
          r := Done(false);
        }
    }

    /** `analyzeAttrTagType`: follows aliases until the type is no reference, or no name leads further. */
    method AnalyzeAttrTagType(type': Type, from: Path) returns (r: Outcome<Class>)
      requires Valid() && from in PathsOf(world) && RefNames(type') <= NamesOf(cfg, world)
      modifies this
      ensures Valid()
      ensures (r, State()) == Classify(cfg, world, Universe(cfg, world), old(State()), type', false, from, {}, 0)
    {
      hide Resolve, Eventually, Universe, NamesOf, PathsOf, InWorld;
      ghost var u := Universe(cfg, world);
      ghost var start := State();
      var (node, many) := Unwrap(type');
      UnwrapNames(type');
      var file, depth := from, 0;
      var seen: set<Key> := {};
      UnwrapAgain(type');
      ClassifyUnwrapped(cfg, world, u, start, type', false, from, {}, 0);
      while node.Ref?
        invariant depth <= MAX_ALIAS_DEPTH && !node.ArrayOf?
        invariant Valid() && file in PathsOf(world) && RefNames(node) <= NamesOf(cfg, world)
        invariant Classify(cfg, world, u, State(), node, many, file, seen, depth) ==
          Classify(cfg, world, u, start, type', false, from, {}, 0)
        decreases MAX_ALIAS_DEPTH - depth
      {
        ghost var before := State();
        var resolved := ResolveNamedType(node.name, file, seen, depth + 1);
        if resolved.Thrown? { return Thrown; }
        if resolved.value == None {
          var hidden := NamedTypeEventuallyContainsAttrTag(node.name, file, {});
          if hidden.Thrown? { return Thrown; }
          return Done(if hidden.value then NotLiteral else Ordinary);
        }
        var (decl, path) := resolved.value.value;
        if decl.Interface? { return Done(Ordinary); }
        if depth == MAX_ALIAS_DEPTH {
          TooDeepIsUnresolved(cfg, world, u, before, node.name, file, seen);
          assert false;
        }
        UnwrapNames(decl.type');
        UnwrapAgain(decl.type');
        ClassifyUnwrapped(cfg, world, u, State(), decl.type', many, path, seen + {(file, node.name)}, depth + 1);
        seen := seen + {(file, node.name)};
        var (inner, wrapped) := Unwrap(decl.type');
        node, many, file, depth := inner, many || wrapped, path, depth + 1;
      }
      if node.AttrTag? {
        return Done(if file in shadowed then Ordinary else Declared(if many then Array else Required));
      }
      return Done(if ContainsAttrTag(node) then NotLiteral else Ordinary);
    }

    /** The members of `Input`, in order; a property written `?` is optional. */
    method ReadMembers(members: seq<Member>, from: Path) returns (r: Outcome<seq<(string, Class)>>)
      requires Valid() && from in PathsOf(world) && MemberNames(members) <= NamesOf(cfg, world)
      modifies this
      ensures Valid()
      ensures (r, State()) == ClassifyMembers(cfg, world, Universe(cfg, world), old(State()), members, from)
    {
      hide Classify, Universe, NamesOf, PathsOf, InWorld;
      ghost var u, start := Universe(cfg, world), State();
      var classes: seq<(string, Class)> := [];
      assert members[0..] == members;
      BeforeNone(ClassifyMembers(cfg, world, u, start, members, from));
      for i := 0 to |members|
        invariant Valid() && MemberNames(members[i..]) <= NamesOf(cfg, world)
        invariant ClassifyMembers(cfg, world, u, start, members, from)
               == Before(classes, ClassifyMembers(cfg, world, u, State(), members[i..], from))
      {
        assert members[i..][0] == members[i] && members[i..][1..] == members[i + 1..];
        var m := members[i];
        var class' := AnalyzeAttrTagType(m.type', from);
        if class'.Thrown? { return Thrown; }
        var one := if m.optional && class'.value == Declared(Required) then Declared(OptionalOne) else class'.value;
        BeforeOneMore(classes, (m.name, one), ClassifyMembers(cfg, world, u, State(), members[i + 1..], from));
        classes := classes + [(m.name, one)];
      }
      assert classes + [] == classes;
      return Done(classes);
    }
  }

  /** An outcome with classes found earlier put in front. */
  function Before(classes: seq<(string, Class)>, r: (Outcome<seq<(string, Class)>>, Reader))
    : (Outcome<seq<(string, Class)>>, Reader)
  {
    if r.0.Thrown? then r else (Done(classes + r.0.value), r.1)
  }

  lemma BeforeNone(r: (Outcome<seq<(string, Class)>>, Reader))
    ensures Before([], r) == r
  {
    if r.0.Done? {
      assert [] + r.0.value == r.0.value;
    }
  }

  lemma BeforeOneMore(classes: seq<(string, Class)>, one: (string, Class), r: (Outcome<seq<(string, Class)>>, Reader))
    ensures Before(classes + [one], r) == Before(classes, if r.0.Thrown? then r else (Done([one] + r.0.value), r.1))
  {
    if r.0.Done? {
      assert classes + [one] + r.0.value == classes + ([one] + r.0.value);
    }
  }

  /** A whole read, in a new analyzer: its answer, its dependencies and what it parsed. */
  method ReadInput(cfg: Config, world: World, path: Path, source: Text)
    returns (input: Input, dependencies: seq<Path>, parsedSources: map<Path, Text>)
    requires world.TextAt(path) == Some(source)
    ensures var read := Read(cfg, world, path);
            input == read.0 && dependencies == read.1.dependencies && parsedSources == read.1.sources &&
              read.1.SourcesFrom(world)
  {
    hide Classify, ClassifyMembers;
    var analyzer := new InputAnalyzer(cfg, world, path, source);
    if cfg.parse(source) == None {
      input := Failed;
    } else {
      var items := cfg.parse(source).value;
      assert ModuleAt(cfg, world, path) == items;
      NamesThere(cfg, world, path);
      AddedFromWorld(cfg, world, Start(path, source), path, items);
      analyzer.AddNodes(path, items);
      var members := FindInput(items);
      if members == None {
        input := NoInput;
      } else {
        InputNames(items);
        var classes := analyzer.ReadMembers(members.value, path);
        input := if classes.Thrown? then Failed else Members(classes.value);
      }
    }
    dependencies, parsedSources := analyzer.dependencies, analyzer.parsedSources;
  }
}
