/**
 * Which paths a read of a callee depends on: the callee, and every candidate it
 * tried for a specifier it followed (packages/core/src/callee-input.ts).
 */
module CalleeProbes {
  import opened CalleeInput
  import opened Wrappers

  /** A candidate tried for one of the specifiers the read followed. */
  ghost predicate Tries(cfg: Config, w: World, asked: seq<(Path, string)>, d: Path) {
    exists a <- asked :: d in Probe(w, cfg.Candidates(cfg.join(a.0, a.1))).1
  }

  /** The dependencies are the callee and the candidates tried, and nothing else. */
  ghost predicate Explained(cfg: Config, w: World, root: Path, st: Reader) {
    forall d :: d in st.dependencies <==> d == root || Tries(cfg, w, st.asked, d)
  }

  lemma {:induction false} DependAllAdds(st: Reader, ps: seq<Path>)
    ensures forall d :: d in st.DependAll(ps).dependencies <==> d in st.dependencies || d in ps
    decreases |ps|
  {
    if ps != [] {
      DependAllAdds(st.Depend(ps[0]), ps[1..]);
    }
  }

  /** Following one specifier: its candidates are tried, and a hit among them is read. */
  lemma AskExplains(cfg: Config, w: World, root: Path, st: Reader, from: Path, specifier: string)
    requires Explained(cfg, w, root, st)
    ensures var (next, tried) := Probe(w, cfg.Candidates(cfg.join(from, specifier)));
            var st1 := st.Ask(from, specifier, tried);
            Explained(cfg, w, root, st1) &&
            (next.Some? ==>
              Explained(cfg, w, root,
                st1.(sources := st1.sources[next.value := w.TextAt(next.value).value]).Depend(next.value)))
  {
    var (next, tried) := Probe(w, cfg.Candidates(cfg.join(from, specifier)));
    var st1 := st.Ask(from, specifier, tried);
    DependAllAdds(st, tried);
    assert st1.asked == st.asked + [(from, specifier)];
    forall d ensures Tries(cfg, w, st1.asked, d) <==> Tries(cfg, w, st.asked, d) || d in tried {
      assert forall a :: a in st1.asked <==> a in st.asked || a == (from, specifier);
    }
  }

  lemma {:induction false} ImportedExplained(
      cfg: Config, w: World, u: set<Key>, root: Path, st: Reader, path: Path, source: Text, name: string)
    requires Explained(cfg, w, root, st)
    ensures Explained(cfg, w, root, ImportedDeclaration(cfg, w, u, st, path, source, name).1)
    decreases u - st.followed, 1, 0
  {
    hide Probe;
    if (path, name) !in st.followed && (path, name) in u && cfg.parse(source).Some? {
      var items := cfg.parse(source).value;
      if DeclaredIn(items, name).None? {
        BehindExplained(cfg, w, u, root, st.(followed := st.followed + {(path, name)}), path, items, name);
      }
    }
  }

  lemma {:induction false} BehindExplained(
      cfg: Config, w: World, u: set<Key>, root: Path, st: Reader, path: Path, items: seq<Item>, name: string)
    requires Explained(cfg, w, root, st)
    ensures Explained(cfg, w, root, Behind(cfg, w, u, st, path, items, name).1)
    decreases u - st.followed, 2, |items|
  {
    hide Explained, ImportedDeclaration, Probe, PassedOn;
    if items != [] {
      var passed := PassedOn(items[0], name);
      if passed.None? {
        BehindExplained(cfg, w, u, root, st, path, items[1..], name);
      } else {
        var (next, tried) := Probe(w, cfg.Candidates(cfg.join(path, items[0].specifier)));
        var st1 := st.Ask(path, items[0].specifier, tried);
        AskExplains(cfg, w, root, st, path, items[0].specifier);
        if next.None? {
          BehindExplained(cfg, w, u, root, st1, path, items[1..], name);
        } else {
          var text := w.TextAt(next.value).value;
          var st2 := st1.(sources := st1.sources[next.value := text]).Depend(next.value);
          ImportedExplained(cfg, w, u, root, st2, next.value, text, passed.value);
          var (found, st3) := ImportedDeclaration(cfg, w, u, st2, next.value, text, passed.value);
          if !found.Thrown? && found.value.None? {
            BehindExplained(cfg, w, u, root, st3, path, items[1..], name);
          }
        }
      }
    }
  }

  lemma {:induction false} AddedExplained(cfg: Config, w: World, root: Path, st: Reader, from: Path, items: seq<Item>)
    requires Explained(cfg, w, root, st)
    ensures Explained(cfg, w, root, st.AddModule(cfg, from, items))
  {
    var later := st.AddModule(cfg, from, items);
    assert later.dependencies == st.dependencies && later.asked == st.asked;
  }

  lemma ResolveExplained(
      cfg: Config, w: World, u: set<Key>, root: Path, st: Reader, name: string, from: Path, seen: set<Key>, depth: nat)
    requires Explained(cfg, w, root, st)
    ensures Explained(cfg, w, root, Resolve(cfg, w, u, st, name, from, seen, depth).1)
  {
    hide Explained, ImportedDeclaration, Probe;
    if (from, name) !in seen && depth <= MAX_ALIAS_DEPTH && (from, name) !in st.declarations &&
      (from, name) in st.typeImports {
      var typeImport := st.typeImports[(from, name)];
      var (next, tried) := Probe(w, cfg.Candidates(cfg.join(from, typeImport.specifier)));
      AskExplains(cfg, w, root, st, from, typeImport.specifier);
      if next.Some? && cfg.followable(next.value) {
        var text := w.TextAt(next.value).value;
        var st1 := st.Ask(from, typeImport.specifier, tried);
        var st2 := st1.(sources := st1.sources[next.value := text]).Depend(next.value);
        ImportedExplained(cfg, w, u, root, st2, next.value, text, typeImport.imported);
        var (found, st3) := ImportedDeclaration(cfg, w, u, st2, next.value, text, typeImport.imported);
        if found.Done? && found.value.Some? {
          AddedExplained(cfg, w, root, st3, found.value.value.path, found.value.value.items);
        }
      }
    }
  }

  lemma {:induction false} EventuallyExplained(
      cfg: Config, w: World, u: set<Key>, root: Path, st: Reader, name: string, from: Path, seen: set<Key>)
    requires Explained(cfg, w, root, st)
    ensures Explained(cfg, w, root, Eventually(cfg, w, u, st, name, from, seen).1)
    decreases u - seen
  {
    if (from, name) !in seen && (from, name) in u {
      ResolveExplained(cfg, w, u, root, st, name, from, {}, 0);
      hide Explained, Resolve, ContainsAttrTag;
      var (resolved, st1) := Resolve(cfg, w, u, st, name, from, {}, 0);
      if resolved.Done? && resolved.value.Some? && resolved.value.value.0.Alias? {
        var t, path := resolved.value.value.0.type', resolved.value.value.1;
        if !ContainsAttrTag(t) && t.Ref? {
          EventuallyExplained(cfg, w, u, root, st1, t.name, path, seen + {(from, name)});
        }
      }
    }
  }

  lemma {:induction false} ClassifyExplained(
      cfg: Config, w: World, u: set<Key>, root: Path, st: Reader, t: Type, many: bool, file: Path, seen: set<Key>,
      depth: nat)
    requires depth <= MAX_ALIAS_DEPTH && Explained(cfg, w, root, st)
    ensures Explained(cfg, w, root, Classify(cfg, w, u, st, t, many, file, seen, depth).1)
    decreases MAX_ALIAS_DEPTH - depth
  {
    hide Explained, Resolve, Eventually, Unwrap, ContainsAttrTag;
    var (inner, wrapped) := Unwrap(t);
    if inner.Ref? {
      ResolveExplained(cfg, w, u, root, st, inner.name, file, seen, depth + 1);
      var (resolved, st1) := Resolve(cfg, w, u, st, inner.name, file, seen, depth + 1);
      if resolved.Done? && resolved.value.None? {
        EventuallyExplained(cfg, w, u, root, st1, inner.name, file, {});
      } else if resolved.Done? && resolved.value.value.0.Alias? && depth < MAX_ALIAS_DEPTH {
        var (decl, path) := resolved.value.value;
        ClassifyExplained(cfg, w, u, root, st1, decl.type', many || wrapped, path, seen + {(file, inner.name)},
          depth + 1);
      }
    }
  }

  lemma {:induction false} MembersExplained(
      cfg: Config, w: World, u: set<Key>, root: Path, st: Reader, members: seq<Member>, file: Path)
    requires Explained(cfg, w, root, st)
    ensures Explained(cfg, w, root, ClassifyMembers(cfg, w, u, st, members, file).1)
    decreases |members|
  {
    hide Explained, Classify;
    if members != [] {
      ClassifyExplained(cfg, w, u, root, st, members[0].type', false, file, {}, 0);
      var (class', st1) := Classify(cfg, w, u, st, members[0].type', false, file, {}, 0);
      if !class'.Thrown? {
        MembersExplained(cfg, w, u, root, st1, members[1..], file);
      }
    }
  }

  /** A read depends on the callee and on what it tried for the specifiers it followed, and on nothing else. */
  lemma DependenciesAreProbes(cfg: Config, w: World, path: Path)
    requires w.TextAt(path).Some?
    ensures Explained(cfg, w, path, Read(cfg, w, path).1)
  {
    var source := w.TextAt(path).value;
    var start := Start(path, source);
    assert Explained(cfg, w, path, start);
    if cfg.parse(source).Some? {
      var items := cfg.parse(source).value;
      AddedExplained(cfg, w, path, start, path, items);
      if FindInput(items).Some? {
        MembersExplained(cfg, w, Universe(cfg, w), path, start.AddModule(cfg, path, items), FindInput(items).value,
          path);
      }
    }
    hide Explained, ClassifyMembers;
  }
}
