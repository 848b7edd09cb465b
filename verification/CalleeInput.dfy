/**
 * Reading a script callee's `Input`: probing relative imports, following type
 * imports and re-exports, and classifying each property
 * (packages/core/src/callee-input.ts). Every answer of the file system the
 * reader uses is recorded as a dependency.
 */
module CalleeInput {
  import opened Wrappers

  type Path = string
  type Text = string
  type Key = (Path, string)

  // ---- modules, as the parser hands them over

  /** A property's type, down to what the reader tells apart; `Literal` is a type literal, `{ ... }`. */
  datatype Type = AttrTag | Ref(name: string) | ArrayOf(element: Type) | Literal(members: seq<Member>) | Plain

  datatype Member = Member(name: string, type': Type, optional: bool)

  datatype Decl = Alias(type': Type) | Interface(members: seq<Member>)

  datatype Item =
    | Declare(exported: bool, name: string, decl: Decl)
    | ImportType(local: string, imported: string, specifier: string)
    | Reexport(specifier: string, names: seq<(string, string)>)
    | ReexportAll(specifier: string)

  type Module = seq<Item>

  // ---- the file system

  datatype File = File(text: Text, mtime: nat)

  /** Files on disk, and the editor's unsaved texts, which win over them. */
  datatype World = World(disk: map<Path, File>, open: map<Path, Text>) {
    function TextAt(p: Path): Option<Text> {
      if p in open then Some(open[p]) else if p in disk then Some(disk[p].text) else None
    }
  }

  /** What does not change between reads: the parser, path arithmetic and the target lookup. */
  datatype Config = Config(
    parse: Text -> Option<Module>,
    join: (Path, string) -> Path,
    index: (Path, string) -> Path,
    extensions: seq<string>,
    followable: Path -> bool,
    attrTagSources: set<string>)
  {
    function WithExtensions(base: Path, k: nat): seq<Path>
      requires k <= |extensions|
      decreases |extensions| - k
    {
      if k == |extensions| then [] else [base + extensions[k]] + WithExtensions(base, k + 1)
    }

    function IndexFiles(base: Path, k: nat): seq<Path>
      requires k <= |extensions|
      decreases |extensions| - k
    {
      if k == |extensions| then [] else [index(base, extensions[k])] + IndexFiles(base, k + 1)
    }

    /** `probeFile`'s candidates, in order: the literal path first. */
    function Candidates(base: Path): seq<Path> {
      [base] + WithExtensions(base, 0) + [index(base, "")] + IndexFiles(base, 0)
    }
  }

  /** `probeFile`: the first candidate that is there, and all that were tried. */
  function Probe(w: World, candidates: seq<Path>): (r: (Option<Path>, seq<Path>))
    ensures r.0.Some? ==> r.0.value in r.1 && w.TextAt(r.0.value).Some?
    decreases |candidates|
  {
    if candidates == [] then (None, [])
    else if w.TextAt(candidates[0]).Some? then (Some(candidates[0]), [candidates[0]])
    else
      var (hit, tried) := Probe(w, candidates[1..]);
      (hit, [candidates[0]] + tried)
  }

  /**
   * The hit is the first candidate that is there and the last one tried, every
   * one before it was tried and is not there; and a miss has tried them all.
   */
  lemma {:induction false} ProbeIsFirst(w: World, candidates: seq<Path>)
    ensures var (hit, tried) := Probe(w, candidates);
            tried <= candidates &&
            if hit.Some? then
              tried != [] && tried[|tried| - 1] == hit.value && w.TextAt(hit.value).Some? &&
              forall k :: 0 <= k < |tried| - 1 ==> w.TextAt(tried[k]).None?
            else tried == candidates && forall k :: 0 <= k < |tried| ==> w.TextAt(tried[k]).None?
    decreases |candidates|
  {
    if candidates != [] && w.TextAt(candidates[0]).None? {
      ProbeIsFirst(w, candidates[1..]);
      assert candidates == [candidates[0]] + candidates[1..];
    }
  }

  // ---- the state of one read

  datatype TypeImport = TypeImport(specifier: string, imported: string)

  /**
   * `InputAnalyzer`'s fields. `followed` is `reexportsSeen`; `shadowed` are files where `AttrTag` is not the ambient
   * type. `asked` lists the specifiers followed, each with its file: what the read probes.
   */
  datatype Reader = Reader(
    declarations: map<Key, Decl>,
    typeImports: map<Key, TypeImport>,
    shadowed: set<Path>,
    dependencies: seq<Path>,
    followed: set<Key>,
    sources: map<Path, Text>,
    asked: seq<(Path, string)>,
    escaped: bool)
  {
    function Depend(p: Path): (r: Reader)
      ensures Within(r) && p in r.dependencies && r == this.(dependencies := r.dependencies)
    {
      if p in dependencies then this else this.(dependencies := dependencies + [p])
    }

    function DependAll(ps: seq<Path>): (r: Reader)
      ensures Within(r) && r == this.(dependencies := r.dependencies)
      ensures forall p <- ps :: p in r.dependencies
      decreases |ps|
    {
      if ps == [] then this else Depend(ps[0]).DependAll(ps[1..])
    }

    /** What a probe for `specifier`, written in `from`, has tried. */
    function Ask(from: Path, specifier: string, tried: seq<Path>): (r: Reader)
      ensures Within(r) && r == this.(dependencies := r.dependencies, asked := asked + [(from, specifier)])
      ensures forall p <- tried :: p in r.dependencies
    {
      DependAll(tried).(asked := asked + [(from, specifier)])
    }

    /** What was parsed is what the file system says now. */
    predicate SourcesFrom(w: World) { forall p <- sources :: w.TextAt(p) == Some(sources[p]) }

    /** Nothing recorded is lost. */
    predicate Within(later: Reader) {
      (forall p <- dependencies :: p in later.dependencies) &&
      followed <= later.followed && (escaped ==> later.escaped)
    }

    function AddItem(cfg: Config, from: Path, item: Item): (r: Reader)
      ensures Within(r) && r.dependencies == dependencies && r.followed == followed && r.escaped == escaped &&
        r.sources == sources && r.asked == asked
    {
      match item
      case Declare(_, name, decl) =>
        this.(declarations := declarations[(from, name) := decl],
              shadowed := if name == "AttrTag" then shadowed + {from} else shadowed)
      case ImportType(local, imported, specifier) =>
        this.(typeImports := typeImports[(from, local) := TypeImport(specifier, imported)],
              shadowed :=
                if local == "AttrTag" && specifier !in cfg.attrTagSources then shadowed + {from} else shadowed)
      case _ => this
    }

    function AddModule(cfg: Config, from: Path, items: seq<Item>): (r: Reader)
      ensures Within(r) && r.dependencies == dependencies && r.followed == followed && r.escaped == escaped &&
        r.sources == sources && r.asked == asked
      decreases |items|
    {
      if items == [] then this else AddItem(cfg, from, items[0]).AddModule(cfg, from, items[1..])
    }
  }

  /** A step that may throw (a followed file that does not parse). */
  datatype Outcome<+T> = Thrown | Done(value: T)

  datatype Found = Found(decl: Decl, path: Path, items: Module)

  /** The first declaration of that name in a file, exported or not. */
  function DeclaredIn(items: seq<Item>, name: string): Option<Decl>
    decreases |items|
  {
    if items == [] then None
    else if items[0].Declare? && items[0].name == name then Some(items[0].decl)
    else DeclaredIn(items[1..], name)
  }

  function ExportedAs(names: seq<(string, string)>, name: string): Option<string>
    decreases |names|
  {
    if names == [] then None
    else if names[0].0 == name then Some(names[0].1)
    else ExportedAs(names[1..], name)
  }

  /** The name a re-export looks for behind it, if it passes `name` on. */
  function PassedOn(item: Item, name: string): (r: Option<string>)
    ensures r.Some? ==> item.Reexport? || item.ReexportAll?
  {
    match item
    case Reexport(_, names) => ExportedAs(names, name)
    case ReexportAll(_) => Some(name)
    case _ => None
  }

  /**
   * `importedDeclaration`. `u` is a finite set of keys to look up in; the
   * reader marks itself `escaped` if it ever leaves it.
   */
  function ImportedDeclaration(
      cfg: Config, w: World, u: set<Key>, st: Reader, path: Path, source: Text, name: string)
    : (r: (Outcome<Option<Found>>, Reader))
    ensures st.Within(r.1) && (st.SourcesFrom(w) ==> r.1.SourcesFrom(w))
    decreases u - st.followed, 1, 0
  {
    if (path, name) in st.followed then (Done(None), st)
    else if (path, name) !in u then (Done(None), st.(escaped := true))
    else
      var st1 := st.(followed := st.followed + {(path, name)});
      match cfg.parse(source)
      case None => (Thrown, st1)
      case Some(items) =>
        match DeclaredIn(items, name)
        case Some(decl) => (Done(Some(Found(decl, path, items))), st1)
        case None => Behind(cfg, w, u, st1, path, items, name)
  }

  /** The loop of `importedDeclaration` over the file's re-exports. */
  function Behind(
      cfg: Config, w: World, u: set<Key>, st: Reader, path: Path, items: seq<Item>, name: string)
    : (r: (Outcome<Option<Found>>, Reader))
    ensures st.Within(r.1) && (st.SourcesFrom(w) ==> r.1.SourcesFrom(w))
    decreases u - st.followed, 2, |items|
  {
    if items == [] then (Done(None), st)
    else
      var passed := PassedOn(items[0], name);
      if passed.None? then Behind(cfg, w, u, st, path, items[1..], name)
      else
        var (next, tried) := Probe(w, cfg.Candidates(cfg.join(path, items[0].specifier)));
        var st1 := st.Ask(path, items[0].specifier, tried);
        if next.None? then Behind(cfg, w, u, st1, path, items[1..], name)
        else
          var text := w.TextAt(next.value).value;
          var st2 := st1.(sources := st1.sources[next.value := text]).Depend(next.value);
          var (found, st3) := ImportedDeclaration(cfg, w, u, st2, next.value, text, passed.value);
          if found.Thrown? || found.value.Some? then (found, st3)
          else Behind(cfg, w, u, st3, path, items[1..], name)
  }

  const MAX_ALIAS_DEPTH := 4

  /** `resolveNamedType`, with the `seen` set it adds to. */
  function Resolve(
      cfg: Config, w: World, u: set<Key>, st: Reader, name: string, from: Path, seen: set<Key>, depth: nat)
    : (r: (Outcome<Option<(Decl, Path)>>, Reader))
    ensures st.Within(r.1) && (st.SourcesFrom(w) ==> r.1.SourcesFrom(w))
  {
    if (from, name) in seen || depth > MAX_ALIAS_DEPTH then (Done(None), st)
    else if (from, name) in st.declarations then (Done(Some((st.declarations[(from, name)], from))), st)
    else if (from, name) !in st.typeImports then (Done(None), st)
    else
      var typeImport := st.typeImports[(from, name)];
      var (next, tried) := Probe(w, cfg.Candidates(cfg.join(from, typeImport.specifier)));
      var st1 := st.Ask(from, typeImport.specifier, tried);
      if next.None? || !cfg.followable(next.value) then (Done(None), st1)
      else
        var text := w.TextAt(next.value).value;
        var st2 := st1.(sources := st1.sources[next.value := text]).Depend(next.value);
        var (found, st3) := ImportedDeclaration(cfg, w, u, st2, next.value, text, typeImport.imported);
        match found
        case Thrown => (Thrown, st3)
        case Done(None) => (Done(None), st3)
        case Done(Some(Found(decl, path, items))) => (Done(Some((decl, path))), st3.AddModule(cfg, path, items))
  }

  /** `unwrap`: array wrappers off, and whether there were any. */
  function Unwrap(t: Type): (r: (Type, bool))
    ensures !r.0.ArrayOf?
  {
    match t
    case ArrayOf(element) => (Unwrap(element).0, true)
    case _ => (t, false)
  }

  predicate ContainsAttrTag(t: Type)
    decreases t
  {
    match t
    case AttrTag => true
    case ArrayOf(element) => ContainsAttrTag(element)
    case Literal(members) => AnyContainsAttrTag(members)
    case _ => false
  }

  predicate AnyContainsAttrTag(members: seq<Member>)
    decreases members
  {
    members != [] && (MemberContainsAttrTag(members[0]) || AnyContainsAttrTag(members[1..]))
  }

  predicate MemberContainsAttrTag(m: Member)
    decreases m
  {
    ContainsAttrTag(m.type')
  }

  datatype Cardinality = Required | OptionalOne | Array

  /** What a property turns out to be: an attribute tag, a positioned error, or an ordinary prop. */
  datatype Class = Declared(cardinality: Cardinality) | NotLiteral | Ordinary

  /** `namedTypeEventuallyContainsAttrTag`: not bounded by the alias depth. */
  function Eventually(cfg: Config, w: World, u: set<Key>, st: Reader, name: string, from: Path, seen: set<Key>)
    : (r: (Outcome<bool>, Reader))
    ensures st.Within(r.1) && (st.SourcesFrom(w) ==> r.1.SourcesFrom(w))
    decreases u - seen
  {
    if (from, name) in seen then (Done(false), st)
    else if (from, name) !in u then (Done(false), st.(escaped := true))
    else
      var (resolved, st1) := Resolve(cfg, w, u, st, name, from, {}, 0);
      match resolved
      case Thrown => (Thrown, st1)
      case Done(None) => (Done(false), st1)
      case Done(Some((decl, path))) =>
        match decl
        case Interface(members) => (Done(AnyContainsAttrTag(members)), st1)
        case Alias(t) =>
          if ContainsAttrTag(t) then (Done(true), st1)
          else if t.Ref? then Eventually(cfg, w, u, st1, t.name, path, seen + {(from, name)})
          else (Done(false), st1)
  }

  /** `analyzeAttrTagType` on a type written in `file`: the loop that follows aliases. */
  function Classify(
      cfg: Config, w: World, u: set<Key>, st: Reader, t: Type, many: bool, file: Path, seen: set<Key>, depth: nat)
    : (r: (Outcome<Class>, Reader))
    requires depth <= MAX_ALIAS_DEPTH
    ensures st.Within(r.1) && (st.SourcesFrom(w) ==> r.1.SourcesFrom(w))
    decreases MAX_ALIAS_DEPTH - depth
  {
    var (inner, wrapped) := Unwrap(t);
    match inner
    case AttrTag =>
      (Done(if file in st.shadowed then Ordinary else Declared(if many || wrapped then Array else Required)), st)
    case Ref(name) =>
      var (resolved, st1) := Resolve(cfg, w, u, st, name, file, seen, depth + 1);
      (match resolved
       case Thrown => (Thrown, st1)
       case Done(None) =>
         var (hidden, st2) := Eventually(cfg, w, u, st1, name, file, {});
         (match hidden
          case Thrown => (Thrown, st2)
          case Done(found) => (Done(if found then NotLiteral else Ordinary), st2))
       case Done(Some((decl, path))) =>
         if decl.Interface? || depth == MAX_ALIAS_DEPTH then (Done(Ordinary), st1)
         else Classify(cfg, w, u, st1, decl.type', many || wrapped, path, seen + {(file, name)}, depth + 1))
    case _ => (Done(if ContainsAttrTag(inner) then NotLiteral else Ordinary), st)
  }

  /** The members of `Input`, in order. */
  function ClassifyMembers(cfg: Config, w: World, u: set<Key>, st: Reader, members: seq<Member>, file: Path)
    : (r: (Outcome<seq<(string, Class)>>, Reader))
    ensures st.Within(r.1) && (st.SourcesFrom(w) ==> r.1.SourcesFrom(w))
    decreases |members|
  {
    if members == [] then (Done([]), st)
    else
      var m := members[0];
      var (class', st1) := Classify(cfg, w, u, st, m.type', false, file, {}, 0);
      if class'.Thrown? then (Thrown, st1)
      else
        var one := if m.optional && class'.value == Declared(Required) then Declared(OptionalOne) else class'.value;
        var (others, st2) := ClassifyMembers(cfg, w, u, st1, members[1..], file);
        if others.Thrown? then (Thrown, st2) else (Done([(m.name, one)] + others.value), st2)
  }

  /** `inputMembers`, of an interface or an alias of a type literal. */
  function MembersOf(decl: Decl): seq<Member> {
    match decl
    case Interface(members) => members
    case Alias(Literal(members)) => members
    case Alias(_) => []
  }

  function FindInput(items: seq<Item>): Option<seq<Member>>
    decreases |items|
  {
    if items == [] then None
    else if items[0].Declare? && items[0].exported && items[0].name == "Input" then Some(MembersOf(items[0].decl))
    else FindInput(items[1..])
  }

  /** The result of a read, `Failed` when a file did not parse. */
  datatype Input = NoInput | Members(members: seq<(string, Class)>) | Failed

  function Start(path: Path, source: Text): Reader {
    Reader(map[], map[], {}, [path], {}, map[path := source], [], false)
  }

  /** `readInputAt` for a script callee whose text is at hand. */
  function ReadInputAt(cfg: Config, w: World, u: set<Key>, path: Path, source: Text): (r: (Input, Reader))
    ensures Start(path, source).Within(r.1) && (w.TextAt(path) == Some(source) ==> r.1.SourcesFrom(w))
  {
    match cfg.parse(source)
    case None => (Failed, Start(path, source))
    case Some(items) =>
      var st := Start(path, source).AddModule(cfg, path, items);
      match FindInput(items)
      case None => (NoInput, st)
      case Some(members) =>
        var (classes, st1) := ClassifyMembers(cfg, w, u, st, members, path);
        (if classes.Thrown? then Failed else Members(classes.value), st1)
  }

  // ---- the recorded dependencies decide the answer

  /** Two file systems that answer the same about every path in `ps`. */
  predicate Agree(w: World, w': World, ps: seq<Path>) {
    forall p <- ps :: w.TextAt(p) == w'.TextAt(p)
  }

  lemma {:induction false} SameProbe(w: World, w': World, candidates: seq<Path>)
    requires Agree(w, w', Probe(w, candidates).1)
    ensures Probe(w', candidates) == Probe(w, candidates)
    decreases |candidates|
  {
    if candidates != [] && w.TextAt(candidates[0]).None? {
      var rest := Probe(w, candidates[1..]).1;
      assert Probe(w, candidates).1 == [candidates[0]] + rest;
      assert forall p <- rest :: p in Probe(w, candidates).1;
      SameProbe(w, w', candidates[1..]);
    } else if candidates != [] {
      assert candidates[0] in Probe(w, candidates).1;
    }
  }

  lemma AgreeEarlier(w: World, w': World, st: Reader, later: Reader)
    requires st.Within(later) && Agree(w, w', later.dependencies)
    ensures Agree(w, w', st.dependencies)
  {
  }

  /** The first steps of following a specifier, told from what they record. */
  lemma SameStep(cfg: Config, w: World, w': World, st: Reader, later: Reader, base: Path)
    requires var (next, tried) := Probe(w, cfg.Candidates(base)); forall p <- tried :: p in later.dependencies
    requires Agree(w, w', later.dependencies)
    ensures Probe(w', cfg.Candidates(base)) == Probe(w, cfg.Candidates(base))
    ensures var next := Probe(w, cfg.Candidates(base)).0;
            next.Some? ==> w'.TextAt(next.value) == w.TextAt(next.value)
  {
    var (next, tried) := Probe(w, cfg.Candidates(base));
    assert Agree(w, w', tried);
    SameProbe(w, w', cfg.Candidates(base));
  }

  lemma {:induction false} SameImported(
      cfg: Config, w: World, u: set<Key>, w': World, u': set<Key>, st: Reader, path: Path, source: Text, name: string)
    requires !ImportedDeclaration(cfg, w, u, st, path, source, name).1.escaped
    requires !ImportedDeclaration(cfg, w', u', st, path, source, name).1.escaped
    requires Agree(w, w', ImportedDeclaration(cfg, w, u, st, path, source, name).1.dependencies)
    ensures ImportedDeclaration(cfg, w', u', st, path, source, name) ==
      ImportedDeclaration(cfg, w, u, st, path, source, name)
    decreases u - st.followed, 1, 0
  {
    if (path, name) !in st.followed && cfg.parse(source).Some? {
      var items := cfg.parse(source).value;
      if DeclaredIn(items, name).None? {
        SameBehind(cfg, w, u, w', u', st.(followed := st.followed + {(path, name)}), path, items, name);
      }
    }
  }

  lemma {:induction false} SameBehind(
      cfg: Config, w: World, u: set<Key>, w': World, u': set<Key>, st: Reader, path: Path, items: seq<Item>,
      name: string)
    requires !Behind(cfg, w, u, st, path, items, name).1.escaped &&
      !Behind(cfg, w', u', st, path, items, name).1.escaped
    requires Agree(w, w', Behind(cfg, w, u, st, path, items, name).1.dependencies)
    ensures Behind(cfg, w', u', st, path, items, name) == Behind(cfg, w, u, st, path, items, name)
    decreases u - st.followed, 2, |items|
  {
    hide ImportedDeclaration, Probe, PassedOn, Agree;
    if items != [] {
      var passed := PassedOn(items[0], name);
      var later := Behind(cfg, w, u, st, path, items, name).1;
      if passed.None? {
        SameBehind(cfg, w, u, w', u', st, path, items[1..], name);
      } else {
        var base := cfg.join(path, items[0].specifier);
        var (next, tried) := Probe(w, cfg.Candidates(base));
        var st1 := st.Ask(path, items[0].specifier, tried);
        SameStep(cfg, w, w', st, later, base);
        if next.None? {
          SameBehind(cfg, w, u, w', u', st1, path, items[1..], name);
        } else {
          var text := w.TextAt(next.value).value;
          var st2 := st1.(sources := st1.sources[next.value := text]).Depend(next.value);
          var (found, st3) := ImportedDeclaration(cfg, w, u, st2, next.value, text, passed.value);
          AgreeEarlier(w, w', st3, later);
          SameImported(cfg, w, u, w', u', st2, next.value, text, passed.value);
          if !found.Thrown? && found.value.None? {
            SameBehind(cfg, w, u, w', u', st3, path, items[1..], name);
          }
        }
      }
    }
  }

  lemma SameResolve(
      cfg: Config, w: World, u: set<Key>, w': World, u': set<Key>, st: Reader, name: string, from: Path,
      seen: set<Key>, depth: nat)
    requires !Resolve(cfg, w, u, st, name, from, seen, depth).1.escaped
    requires !Resolve(cfg, w', u', st, name, from, seen, depth).1.escaped
    requires Agree(w, w', Resolve(cfg, w, u, st, name, from, seen, depth).1.dependencies)
    ensures Resolve(cfg, w', u', st, name, from, seen, depth) == Resolve(cfg, w, u, st, name, from, seen, depth)
  {
    hide ImportedDeclaration, Probe, Agree;
    if (from, name) !in seen && depth <= MAX_ALIAS_DEPTH && (from, name) !in st.declarations &&
      (from, name) in st.typeImports {
      var typeImport := st.typeImports[(from, name)];
      var later := Resolve(cfg, w, u, st, name, from, seen, depth).1;
      var base := cfg.join(from, typeImport.specifier);
      var (next, tried) := Probe(w, cfg.Candidates(base));
      SameStep(cfg, w, w', st, later, base);
      if next.Some? && cfg.followable(next.value) {
        var text := w.TextAt(next.value).value;
        var st1 := st.Ask(from, typeImport.specifier, tried);
        var st2 := st1.(sources := st1.sources[next.value := text]).Depend(next.value);
        var (found, st3) := ImportedDeclaration(cfg, w, u, st2, next.value, text, typeImport.imported);
        AgreeEarlier(w, w', st3, later);
        SameImported(cfg, w, u, w', u', st2, next.value, text, typeImport.imported);
      }
    }
  }

  lemma {:induction false} SameEventually(
      cfg: Config, w: World, u: set<Key>, w': World, u': set<Key>, st: Reader, name: string, from: Path, seen: set<Key>)
    requires !Eventually(cfg, w, u, st, name, from, seen).1.escaped
    requires !Eventually(cfg, w', u', st, name, from, seen).1.escaped
    requires Agree(w, w', Eventually(cfg, w, u, st, name, from, seen).1.dependencies)
    ensures Eventually(cfg, w', u', st, name, from, seen) == Eventually(cfg, w, u, st, name, from, seen)
    decreases u - seen
  {
    hide Resolve, ContainsAttrTag;
    if (from, name) !in seen {
      var later := Eventually(cfg, w, u, st, name, from, seen).1;
      var (resolved, st1) := Resolve(cfg, w, u, st, name, from, {}, 0);
      AgreeEarlier(w, w', st1, later);
      SameResolve(cfg, w, u, w', u', st, name, from, {}, 0);
      if resolved.Done? && resolved.value.Some? && resolved.value.value.0.Alias? {
        var t, path := resolved.value.value.0.type', resolved.value.value.1;
        if !ContainsAttrTag(t) && t.Ref? {
          SameEventually(cfg, w, u, w', u', st1, t.name, path, seen + {(from, name)});
        }
      }
    }
  }

  lemma {:induction false} SameClass(
      cfg: Config, w: World, u: set<Key>, w': World, u': set<Key>, st: Reader, t: Type, many: bool, file: Path,
      seen: set<Key>, depth: nat)
    requires depth <= MAX_ALIAS_DEPTH
    requires !Classify(cfg, w, u, st, t, many, file, seen, depth).1.escaped
    requires !Classify(cfg, w', u', st, t, many, file, seen, depth).1.escaped
    requires Agree(w, w', Classify(cfg, w, u, st, t, many, file, seen, depth).1.dependencies)
    ensures Classify(cfg, w', u', st, t, many, file, seen, depth) == Classify(cfg, w, u, st, t, many, file, seen, depth)
    decreases MAX_ALIAS_DEPTH - depth
  {
    hide Resolve, Eventually, Agree, Unwrap;
    var (inner, wrapped) := Unwrap(t);
    if inner.Ref? {
      var later := Classify(cfg, w, u, st, t, many, file, seen, depth).1;
      var (resolved, st1) := Resolve(cfg, w, u, st, inner.name, file, seen, depth + 1);
      AgreeEarlier(w, w', st1, later);
      SameResolve(cfg, w, u, w', u', st, inner.name, file, seen, depth + 1);
      if resolved.Done? && resolved.value.None? {
        SameEventually(cfg, w, u, w', u', st1, inner.name, file, {});
      } else if resolved.Done? && resolved.value.value.0.Alias? && depth < MAX_ALIAS_DEPTH {
        var (decl, path) := resolved.value.value;
        SameClass(cfg, w, u, w', u', st1, decl.type', many || wrapped, path, seen + {(file, inner.name)}, depth + 1);
      }
    }
  }

  lemma {:induction false} SameMembers(
      cfg: Config, w: World, u: set<Key>, w': World, u': set<Key>, st: Reader, members: seq<Member>, file: Path)
    requires !ClassifyMembers(cfg, w, u, st, members, file).1.escaped
    requires !ClassifyMembers(cfg, w', u', st, members, file).1.escaped
    requires Agree(w, w', ClassifyMembers(cfg, w, u, st, members, file).1.dependencies)
    ensures ClassifyMembers(cfg, w', u', st, members, file) == ClassifyMembers(cfg, w, u, st, members, file)
    decreases |members|
  {
    if members != [] {
      var later := ClassifyMembers(cfg, w, u, st, members, file).1;
      var (class', st1) := Classify(cfg, w, u, st, members[0].type', false, file, {}, 0);
      AgreeEarlier(w, w', st1, later);
      SameClass(cfg, w, u, w', u', st, members[0].type', false, file, {}, 0);
      if !class'.Thrown? {
        SameMembers(cfg, w, u, w', u', st1, members[1..], file);
      }
    }
  }

  // ---- the universe of one file system

  function NamesIn(items: seq<Item>): set<string>
    decreases |items|
  {
    if items == [] then {} else NamesIn(items[1..]) + ItemNames(items[0])
  }

  function ItemNames(item: Item): set<string> {
    match item
    case Declare(_, name, decl) => {name} + TypeNames(decl)
    case ImportType(local, imported, _) => {local, imported}
    case Reexport(_, names) => PairNames(names)
    case ReexportAll(_) => {}
  }

  function TypeNames(decl: Decl): set<string> {
    match decl
    case Alias(t) => RefNames(t)
    case Interface(members) => MemberNames(members)
  }

  function RefNames(t: Type): set<string>
    decreases t
  {
    match t
    case Ref(name) => {name}
    case ArrayOf(element) => RefNames(element)
    case Literal(members) => MemberNames(members)
    case _ => {}
  }

  function MemberNames(members: seq<Member>): set<string>
    decreases members
  {
    if members == [] then {} else NamesOfMember(members[0]) + MemberNames(members[1..])
  }

  function NamesOfMember(m: Member): set<string>
    decreases m
  {
    RefNames(m.type')
  }

  function PairNames(names: seq<(string, string)>): set<string>
    decreases |names|
  {
    if names == [] then {} else {names[0].0, names[0].1} + PairNames(names[1..])
  }

  function PathsOf(w: World): set<Path> { w.disk.Keys + w.open.Keys }

  function ModuleAt(cfg: Config, w: World, p: Path): Module {
    var text := w.TextAt(p);
    if text.None? || cfg.parse(text.value).None? then [] else cfg.parse(text.value).value
  }

  function NamesOf(cfg: Config, w: World): set<string> {
    set p, name | p in PathsOf(w) && name in NamesIn(ModuleAt(cfg, w, p)) :: name
  }

  /** Every name written in some file, in every file: no read looks further. */
  function Universe(cfg: Config, w: World): set<Key> {
    set p, name | p in PathsOf(w) && name in NamesOf(cfg, w) :: (p, name)
  }

  /** What a reader has gathered comes from the files there are. */
  ghost predicate InWorld(cfg: Config, w: World, st: Reader) {
    (forall k <- st.declarations :: k.0 in PathsOf(w) && TypeNames(st.declarations[k]) <= NamesOf(cfg, w)) &&
    forall k <- st.typeImports :: st.typeImports[k].imported in NamesOf(cfg, w)
  }

  lemma NamesThere(cfg: Config, w: World, p: Path)
    ensures NamesIn(ModuleAt(cfg, w, p)) <= NamesOf(cfg, w)
  {
  }

  lemma ItemFromWorld(cfg: Config, w: World, st: Reader, from: Path, item: Item)
    requires InWorld(cfg, w, st) && from in PathsOf(w) && ItemNames(item) <= NamesOf(cfg, w)
    ensures InWorld(cfg, w, st.AddItem(cfg, from, item))
  {
    hide PathsOf, NamesOf, TypeNames;
  }

  lemma {:induction false} AddedFromWorld(cfg: Config, w: World, st: Reader, from: Path, items: seq<Item>)
    requires InWorld(cfg, w, st) && from in PathsOf(w) && NamesIn(items) <= NamesOf(cfg, w)
    ensures InWorld(cfg, w, st.AddModule(cfg, from, items))
    decreases |items|
  {
    hide InWorld, PathsOf, NamesOf, ItemNames;
    if items != [] {
      ItemFromWorld(cfg, w, st, from, items[0]);
      AddedFromWorld(cfg, w, st.AddItem(cfg, from, items[0]), from, items[1..]);
    }
  }

  lemma {:induction false} DeclaredNames(items: seq<Item>, name: string)
    requires DeclaredIn(items, name).Some?
    ensures TypeNames(DeclaredIn(items, name).value) <= NamesIn(items)
    decreases |items|
  {
    if !(items[0].Declare? && items[0].name == name) {
      DeclaredNames(items[1..], name);
    }
  }

  lemma {:induction false} ExportedName(names: seq<(string, string)>, name: string)
    requires ExportedAs(names, name).Some?
    ensures ExportedAs(names, name).value in PairNames(names)
    decreases |names|
  {
    if names[0].0 != name {
      ExportedName(names[1..], name);
    }
  }

  lemma {:induction false} ImportedStays(
      cfg: Config, w: World, st: Reader, path: Path, source: Text, name: string)
    requires !st.escaped && w.TextAt(path) == Some(source) && name in NamesOf(cfg, w)
    ensures var (found, st1) := ImportedDeclaration(cfg, w, Universe(cfg, w), st, path, source, name);
            !st1.escaped && st1.declarations == st.declarations && st1.typeImports == st.typeImports &&
            st1.shadowed == st.shadowed &&
            (found.Done? && found.value.Some? ==>
              var f := found.value.value;
              f.path in PathsOf(w) && NamesIn(f.items) <= NamesOf(cfg, w) && TypeNames(f.decl) <= NamesOf(cfg, w))
    decreases Universe(cfg, w) - st.followed, 1, 0
  {
    assert path in PathsOf(w) && (path, name) in Universe(cfg, w);
    if (path, name) !in st.followed && cfg.parse(source).Some? {
      var items := cfg.parse(source).value;
      assert ModuleAt(cfg, w, path) == items;
      NamesThere(cfg, w, path);
      if DeclaredIn(items, name).Some? {
        DeclaredNames(items, name);
      } else {
        BehindStays(cfg, w, st.(followed := st.followed + {(path, name)}), path, items, name);
      }
    }
  }

  lemma {:induction false} BehindStays(cfg: Config, w: World, st: Reader, path: Path, items: seq<Item>, name: string)
    requires !st.escaped && name in NamesOf(cfg, w) && NamesIn(items) <= NamesOf(cfg, w)
    ensures var (found, st1) := Behind(cfg, w, Universe(cfg, w), st, path, items, name);
            !st1.escaped && st1.declarations == st.declarations && st1.typeImports == st.typeImports &&
            st1.shadowed == st.shadowed &&
            (found.Done? && found.value.Some? ==>
              var f := found.value.value;
              f.path in PathsOf(w) && NamesIn(f.items) <= NamesOf(cfg, w) && TypeNames(f.decl) <= NamesOf(cfg, w))
    decreases Universe(cfg, w) - st.followed, 2, |items|
  {
    hide ImportedDeclaration, Probe, Universe, PathsOf, TypeNames, ModuleAt;
    if items != [] {
      var u := Universe(cfg, w);
      var passed := PassedOn(items[0], name);
      if passed.None? {
        BehindStays(cfg, w, st, path, items[1..], name);
      } else {
        assert passed.value in NamesOf(cfg, w) by {
          if items[0].Reexport? {
            ExportedName(items[0].names, name);
            assert PairNames(items[0].names) <= NamesIn(items);
          }
        }
        var (next, tried) := Probe(w, cfg.Candidates(cfg.join(path, items[0].specifier)));
        var st1 := st.Ask(path, items[0].specifier, tried);
        if next.None? {
          BehindStays(cfg, w, st1, path, items[1..], name);
        } else {
          var text := w.TextAt(next.value).value;
          var st2 := st1.(sources := st1.sources[next.value := text]).Depend(next.value);
          ImportedStays(cfg, w, st2, next.value, text, passed.value);
          var (found, st3) := ImportedDeclaration(cfg, w, u, st2, next.value, text, passed.value);
          if !found.Thrown? && found.value.None? {
            BehindStays(cfg, w, st3, path, items[1..], name);
          }
        }
      }
    }
  }

  lemma ResolveStays(
      cfg: Config, w: World, st: Reader, name: string, from: Path, seen: set<Key>, depth: nat)
    requires !st.escaped && InWorld(cfg, w, st) && from in PathsOf(w)
    ensures var (resolved, st1) := Resolve(cfg, w, Universe(cfg, w), st, name, from, seen, depth);
            !st1.escaped && InWorld(cfg, w, st1) &&
            (resolved.Done? && resolved.value.Some? ==>
              resolved.value.value.1 in PathsOf(w) && TypeNames(resolved.value.value.0) <= NamesOf(cfg, w))
  {
    hide ImportedDeclaration, Probe, Universe, TypeNames, NamesIn, NamesOf;
    if (from, name) !in seen && depth <= MAX_ALIAS_DEPTH && (from, name) !in st.declarations &&
      (from, name) in st.typeImports {
      var typeImport := st.typeImports[(from, name)];
      var (next, tried) := Probe(w, cfg.Candidates(cfg.join(from, typeImport.specifier)));
      if next.Some? && cfg.followable(next.value) {
        var text := w.TextAt(next.value).value;
        var st1 := st.Ask(from, typeImport.specifier, tried);
        var st2 := st1.(sources := st1.sources[next.value := text]).Depend(next.value);
        ImportedStays(cfg, w, st2, next.value, text, typeImport.imported);
        var (found, st3) := ImportedDeclaration(cfg, w, Universe(cfg, w), st2, next.value, text, typeImport.imported);
        if found.Done? && found.value.Some? {
          AddedFromWorld(cfg, w, st3, found.value.value.path, found.value.value.items);
        }
      }
    }
  }

  lemma {:induction false} EventuallyStays(cfg: Config, w: World, st: Reader, name: string, from: Path, seen: set<Key>)
    requires !st.escaped && InWorld(cfg, w, st) && from in PathsOf(w) && name in NamesOf(cfg, w)
    ensures var r := Eventually(cfg, w, Universe(cfg, w), st, name, from, seen);
            !r.1.escaped && InWorld(cfg, w, r.1)
    decreases Universe(cfg, w) - seen
  {
    assert (from, name) in Universe(cfg, w);
    if (from, name) !in seen {
      ResolveStays(cfg, w, st, name, from, {}, 0);
      var (resolved, st1) := Resolve(cfg, w, Universe(cfg, w), st, name, from, {}, 0);
      if resolved.Done? && resolved.value.Some? && resolved.value.value.0.Alias? {
        var t, path := resolved.value.value.0.type', resolved.value.value.1;
        if !ContainsAttrTag(t) && t.Ref? {
          EventuallyStays(cfg, w, st1, t.name, path, seen + {(from, name)});
        }
      }
    }
  }

  lemma {:induction false} UnwrapNames(t: Type)
    ensures RefNames(Unwrap(t).0) == RefNames(t)
  {
    if t.ArrayOf? {
      UnwrapNames(t.element);
    }
  }

  lemma {:induction false} ClassifyStays(
      cfg: Config, w: World, st: Reader, t: Type, many: bool, file: Path, seen: set<Key>, depth: nat)
    requires depth <= MAX_ALIAS_DEPTH
    requires !st.escaped && InWorld(cfg, w, st) && file in PathsOf(w) && RefNames(t) <= NamesOf(cfg, w)
    ensures var r := Classify(cfg, w, Universe(cfg, w), st, t, many, file, seen, depth);
            !r.1.escaped && InWorld(cfg, w, r.1)
    decreases MAX_ALIAS_DEPTH - depth
  {
    hide Resolve, Eventually, Universe, InWorld, PathsOf, NamesOf, Unwrap;
    var (inner, wrapped) := Unwrap(t);
    UnwrapNames(t);
    if inner.Ref? {
      ResolveStays(cfg, w, st, inner.name, file, seen, depth + 1);
      var (resolved, st1) := Resolve(cfg, w, Universe(cfg, w), st, inner.name, file, seen, depth + 1);
      if resolved.Done? && resolved.value.None? {
        EventuallyStays(cfg, w, st1, inner.name, file, {});
      } else if resolved.Done? && resolved.value.value.0.Alias? && depth < MAX_ALIAS_DEPTH {
        var (decl, path) := resolved.value.value;
        ClassifyStays(cfg, w, st1, decl.type', many || wrapped, path, seen + {(file, inner.name)}, depth + 1);
      }
    }
  }

  lemma {:induction false} MembersStay(cfg: Config, w: World, st: Reader, members: seq<Member>, file: Path)
    requires !st.escaped && InWorld(cfg, w, st) && file in PathsOf(w) && MemberNames(members) <= NamesOf(cfg, w)
    ensures !ClassifyMembers(cfg, w, Universe(cfg, w), st, members, file).1.escaped
    decreases |members|
  {
    if members != [] {
      ClassifyStays(cfg, w, st, members[0].type', false, file, {}, 0);
      var (class', st1) := Classify(cfg, w, Universe(cfg, w), st, members[0].type', false, file, {}, 0);
      if !class'.Thrown? {
        MembersStay(cfg, w, st1, members[1..], file);
      }
    }
  }

  lemma {:induction false} InputNames(items: seq<Item>)
    requires FindInput(items).Some?
    ensures MemberNames(FindInput(items).value) <= NamesIn(items)
    decreases |items|
  {
    if !(items[0].Declare? && items[0].exported && items[0].name == "Input") {
      InputNames(items[1..]);
    }
  }

  /** The whole read of the callee at `path`, over the names its own file system has. */
  function Read(cfg: Config, w: World, path: Path): (r: (Input, Reader))
    requires w.TextAt(path).Some?
  {
    ReadInputAt(cfg, w, Universe(cfg, w), path, w.TextAt(path).value)
  }

  /**
   * A read terminates on every graph of declarations, cyclic ones included,
   * without ever leaving the finite set of names written in the files.
   */
  lemma ReadStaysInUniverse(cfg: Config, w: World, path: Path)
    requires w.TextAt(path).Some?
    ensures !Read(cfg, w, path).1.escaped
  {
    var source := w.TextAt(path).value;
    if cfg.parse(source).Some? {
      var items := cfg.parse(source).value;
      var st := Start(path, source).AddModule(cfg, path, items);
      assert ModuleAt(cfg, w, path) == items;
      NamesThere(cfg, w, path);
      AddedFromWorld(cfg, w, Start(path, source), path, items);
      if FindInput(items).Some? {
        InputNames(items);
        MembersStay(cfg, w, st, FindInput(items).value, path);
      }
    }
  }

  /**
   * The dependencies a read records decide its answer: any other file system
   * that agrees on each of them gives the same result, state and dependencies.
   */
  lemma DependenciesDecide(cfg: Config, w: World, w': World, path: Path)
    requires w.TextAt(path).Some? && Agree(w, w', Read(cfg, w, path).1.dependencies)
    ensures w'.TextAt(path) == w.TextAt(path) && Read(cfg, w', path) == Read(cfg, w, path)
  {
    var source := w.TextAt(path).value;
    ReadStaysInUniverse(cfg, w, path);
    assert path in Start(path, source).dependencies;
    ReadStaysInUniverse(cfg, w', path);
    if cfg.parse(source).Some? {
      var items := cfg.parse(source).value;
      var st := Start(path, source).AddModule(cfg, path, items);
      if FindInput(items).Some? {
        SameMembers(cfg, w, Universe(cfg, w), w', Universe(cfg, w'), st, FindInput(items).value, path);
      }
    }
  }
}
