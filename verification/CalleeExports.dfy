/**
 * Which declaration an import of a name finds behind re-exports: told of the
 * files alone, without the reader (packages/core/src/callee-input.ts,
 * `importedDeclaration`).
 */
module CalleeExports {
  import opened CalleeChains
  import opened CalleeInput
  import opened CalleeTypes
  import opened Wrappers

  // ---- what the files say

  /** The file declares the name, exported or not; the first declaration of that name is the one found. */
  ghost predicate Declares(cfg: Config, w: World, k: Key, found: Found) {
    var items := ModuleAt(cfg, w, k.0);
    found.path == k.0 && found.items == items &&
    exists i :: 0 <= i < |items| && IsDeclared(items[i], k.1) && items[i].decl == found.decl &&
      forall j :: 0 <= j < i ==> !IsDeclared(items[j], k.1)
  }

  predicate IsDeclared(item: Item, name: string) { item.Declare? && item.name == name }

  ghost predicate DeclaresName(cfg: Config, w: World, k: Key) {
    exists item <- ModuleAt(cfg, w, k.0) :: IsDeclared(item, k.1)
  }

  /** `export * from`, or `export { b as a } from` with the names as exported: the item stands for `k` in `to`. */
  ghost predicate Passes(cfg: Config, w: World, k: Key, item: Item, to: Key) {
    match item
    case ReexportAll(specifier) => to.1 == k.1 && Finds(cfg, w, k.0, specifier, to.0)
    case Reexport(specifier, names) =>
      Finds(cfg, w, k.0, specifier, to.0) &&
      exists n :: 0 <= n < |names| && names[n] == (k.1, to.1) && forall m :: 0 <= m < n ==> names[m].0 != k.1
    case _ => false
  }

  /** The specifier, written in `from`, leads to the first candidate that is there. */
  ghost predicate Finds(cfg: Config, w: World, from: Path, specifier: string, to: Path) {
    var candidates := cfg.Candidates(cfg.join(from, specifier));
    exists c :: 0 <= c < |candidates| && IsFirstThere(w, candidates, to, c)
  }

  predicate IsFirstThere(w: World, candidates: seq<Path>, to: Path, c: nat)
    requires c < |candidates|
  {
    candidates[c] == to && w.TextAt(to).Some? && forall d :: 0 <= d < c ==> w.TextAt(candidates[d]).None?
  }

  ghost predicate Leads(cfg: Config, w: World, k: Key, to: Key) {
    exists item <- ModuleAt(cfg, w, k.0) :: Passes(cfg, w, k, item, to)
  }

  /** From `k`, over re-exports and past none of the keys in `avoid`, there is a way along `way`. */
  ghost predicate IsWay(cfg: Config, w: World, avoid: set<Key>, k: Key, way: seq<Key>) {
    way != [] && way[0] == k && (forall i :: 0 <= i < |way| ==> way[i] !in avoid) &&
    forall i :: 0 <= i < |way| - 1 ==> !DeclaresName(cfg, w, way[i]) && Leads(cfg, w, way[i], way[i + 1])
  }

  /** The name is exported as a declaration: the file declares it, or re-exports a name that is. */
  ghost predicate Exports(cfg: Config, w: World, avoid: set<Key>, k: Key) {
    exists way: seq<Key> :: IsWay(cfg, w, avoid, k, way) && DeclaresName(cfg, w, way[|way| - 1])
  }

  /** A file on the way does not parse. */
  ghost predicate Stumbles(cfg: Config, w: World, avoid: set<Key>, k: Key) {
    exists way: seq<Key> :: IsWay(cfg, w, avoid, k, way) && Broken(cfg, w, way[|way| - 1].0)
  }

  predicate Broken(cfg: Config, w: World, p: Path) { w.TextAt(p).Some? && cfg.parse(w.TextAt(p).value).None? }

  /** `i` is the first re-export in the file, in order, that leads to a declaration, and it leads to `to`. */
  ghost predicate Wins(cfg: Config, w: World, avoid: set<Key>, k: Key, i: nat, to: Key) {
    var items := ModuleAt(cfg, w, k.0);
    i < |items| && Passes(cfg, w, k, items[i], to) &&
    forall j, t :: 0 <= j < i && Passes(cfg, w, k, items[j], t) ==> !Exports(cfg, w, avoid, t)
  }

  /** The way to `found` on which, in every file, the first re-export that leads to a declaration is taken. */
  ghost predicate IsTrail(cfg: Config, w: World, avoid: set<Key>, trail: seq<Key>, found: Found)
    decreases |trail|
  {
    trail != [] && trail[0] !in avoid &&
    if |trail| == 1 then Declares(cfg, w, trail[0], found)
    else
      !DeclaresName(cfg, w, trail[0]) &&
      (exists i: nat :: Wins(cfg, w, avoid + {trail[0]}, trail[0], i, trail[1])) &&
      IsTrail(cfg, w, avoid + {trail[0]}, trail[1..], found)
  }

  // ---- the steps of the reader are those of the files

  lemma {:induction false} DeclaredIsFirst(items: Module, name: string)
    ensures DeclaredIn(items, name).Some? <==> exists item <- items :: IsDeclared(item, name)
    ensures DeclaredIn(items, name).Some? ==>
      exists i :: 0 <= i < |items| && IsDeclared(items[i], name) && DeclaredIn(items, name) == Some(items[i].decl) &&
        forall j :: 0 <= j < i ==> !IsDeclared(items[j], name)
    decreases |items|
  {
    if items != [] {
      DeclaredIsFirst(items[1..], name);
      if IsDeclared(items[0], name) {
        assert items[0] in items;
      } else if DeclaredIn(items[1..], name).Some? {
        var i :| 0 <= i < |items[1..]| && IsDeclared(items[1..][i], name) &&
          DeclaredIn(items[1..], name) == Some(items[1..][i].decl) &&
          forall j :: 0 <= j < i ==> !IsDeclared(items[1..][j], name);
        assert items[i + 1] == items[1..][i];
        assert forall j :: 0 < j < i + 1 ==> items[j] == items[1..][j - 1];
      }
      assert forall item :: item in items <==> item == items[0] || item in items[1..];
    }
  }

  lemma {:induction false} ExportedIsFirst(names: seq<(string, string)>, name: string, to: string)
    ensures ExportedAs(names, name) == Some(to) <==>
      exists n :: 0 <= n < |names| && names[n] == (name, to) && forall m :: 0 <= m < n ==> names[m].0 != name
    decreases |names|
  {
    if names != [] {
      ExportedIsFirst(names[1..], name, to);
      if names[0].0 != name {
        if ExportedAs(names[1..], name) == Some(to) {
          var n :| 0 <= n < |names[1..]| && names[1..][n] == (name, to) &&
            forall m :: 0 <= m < n ==> names[1..][m].0 != name;
          assert names[n + 1] == (name, to) && forall m :: 0 < m < n + 1 ==> names[m] == names[1..][m - 1];
        }
        if n :| 0 <= n < |names| && names[n] == (name, to) && forall m :: 0 <= m < n ==> names[m].0 != name {
          assert names[1..][n - 1] == (name, to) && forall m :: 0 <= m < n - 1 ==> names[1..][m] == names[m + 1];
        }
      }
    }
  }

  lemma {:induction false} ProbeFinds(w: World, candidates: seq<Path>, to: Path)
    ensures Probe(w, candidates).0 == Some(to) <==>
      exists c :: 0 <= c < |candidates| && IsFirstThere(w, candidates, to, c)
  {
    ProbeIsFirst(w, candidates);
    var (hit, tried) := Probe(w, candidates);
    assert forall i :: 0 <= i < |tried| ==> tried[i] == candidates[i];
    if hit == Some(to) {
      assert IsFirstThere(w, candidates, to, |tried| - 1);
    }
    if c :| 0 <= c < |candidates| && IsFirstThere(w, candidates, to, c) {
      if hit.Some? {
        assert candidates[|tried| - 1] == hit.value;
        assert c < |tried| - 1 ==> w.TextAt(tried[c]).None?;
      }
    }
  }

  /** Where the reader goes for one item is where the item passes the key on to. */
  lemma StepIsPassed(cfg: Config, w: World, k: Key, item: Item, to: Key)
    ensures Passes(cfg, w, k, item, to) <==>
      PassedOn(item, k.1) == Some(to.1) && Probe(w, cfg.Candidates(cfg.join(k.0, item.specifier))).0 == Some(to.0)
  {
    match item
    case ReexportAll(specifier) => ProbeFinds(w, cfg.Candidates(cfg.join(k.0, specifier)), to.0);
    case Reexport(specifier, names) =>
      ProbeFinds(w, cfg.Candidates(cfg.join(k.0, specifier)), to.0);
      ExportedIsFirst(names, k.1, to.1);
    case _ =>
  }

  // ---- the search

  /** Past the keys of `stack`, what was followed declares nothing and leads only to what was followed. */
  ghost predicate Closed(cfg: Config, w: World, stack: set<Key>, followed: set<Key>) {
    stack <= followed &&
    forall q <- followed - stack :: !DeclaresName(cfg, w, q) && forall t :: Leads(cfg, w, q, t) ==> t in followed
  }

  /** Nothing that was followed in vain exports anything, unless through the stack. */
  lemma {:induction false} StaysClosed(
      cfg: Config, w: World, stack: set<Key>, followed: set<Key>, k: Key, way: seq<Key>)
    requires Closed(cfg, w, stack, followed) && k in followed && IsWay(cfg, w, stack, k, way)
    ensures !DeclaresName(cfg, w, way[|way| - 1])
    decreases |way|
  {
    if |way| > 1 {
      assert Leads(cfg, w, way[0], way[1]);
      assert IsWay(cfg, w, stack, way[1], way[1..]) by {
        assert forall i :: 0 <= i < |way| - 1 ==> way[1..][i] == way[i + 1];
      }
      StaysClosed(cfg, w, stack, followed, way[1], way[1..]);
    }
  }

  lemma NothingBehind(cfg: Config, w: World, stack: set<Key>, followed: set<Key>, k: Key)
    requires Closed(cfg, w, stack, followed) && k in followed
    ensures !Exports(cfg, w, stack, k)
  {
    forall way | IsWay(cfg, w, stack, k, way) ensures !DeclaresName(cfg, w, way[|way| - 1]) {
      StaysClosed(cfg, w, stack, followed, k, way);
    }
  }

  /** What one search comes to: the trail of what it found, or nothing to find, or a file that does not parse. */
  ghost predicate Answers(
      cfg: Config, w: World, stack: set<Key>, k: Key, r: (Outcome<Option<Found>>, Reader), trail: seq<Key>)
  {
    r.1.escaped ||
    match r.0
    case Thrown => Stumbles(cfg, w, stack, k)
    case Done(None) => Closed(cfg, w, stack, r.1.followed) && k in r.1.followed
    case Done(Some(found)) => trail != [] && trail[0] == k && IsTrail(cfg, w, stack, trail, found)
  }

  lemma OneMoreOpen(cfg: Config, w: World, stack: set<Key>, followed: set<Key>, k: Key)
    requires Closed(cfg, w, stack, followed)
    ensures Closed(cfg, w, stack + {k}, followed + {k})
  {
    forall q | q in followed + {k} - (stack + {k})
      ensures !DeclaresName(cfg, w, q) && forall t :: Leads(cfg, w, q, t) ==> t in followed + {k}
    {
      assert q in followed - stack;
    }
  }

  lemma {:induction false} Searches(
      cfg: Config, w: World, u: set<Key>, st: Reader, stack: set<Key>, path: Path, name: string)
    returns (trail: seq<Key>)
    requires w.TextAt(path).Some? && Closed(cfg, w, stack, st.followed)
    ensures Answers(cfg, w, stack, (path, name),
      ImportedDeclaration(cfg, w, u, st, path, w.TextAt(path).value, name), trail)
    decreases u - st.followed, 1, 0
  {
    var k, source := (path, name), w.TextAt(path).value;
    trail := [k];
    if k !in st.followed && k in u {
      var st1 := st.(followed := st.followed + {k});
      if cfg.parse(source).None? {
        assert IsWay(cfg, w, stack, k, [k]);
      } else {
        var items := cfg.parse(source).value;
        DeclaredIsFirst(items, name);
        if DeclaredIn(items, name).Some? {
          assert ModuleAt(cfg, w, path) == items;
          assert Declares(cfg, w, k, Found(DeclaredIn(items, name).value, path, items));
        } else {
          OneMoreOpen(cfg, w, stack, st.followed, k);
          trail := SearchesBehind(cfg, w, u, st1, stack, k, 0);
          assert items[0..] == items;
        }
      }
    }
  }

  lemma {:induction false} SearchesBehind(
      cfg: Config, w: World, u: set<Key>, st: Reader, stack: set<Key>, k: Key, i: nat)
    returns (trail: seq<Key>)
    requires w.TextAt(k.0).Some? && cfg.parse(w.TextAt(k.0).value).Some? && i <= |ModuleAt(cfg, w, k.0)|
    requires k !in stack && k in st.followed && !DeclaresName(cfg, w, k)
    requires Closed(cfg, w, stack + {k}, st.followed)
    requires forall j, t :: 0 <= j < i && Passes(cfg, w, k, ModuleAt(cfg, w, k.0)[j], t) ==> t in st.followed
    ensures Answers(cfg, w, stack, k, Behind(cfg, w, u, st, k.0, ModuleAt(cfg, w, k.0)[i..], k.1), trail)
    decreases u - st.followed, 2, |ModuleAt(cfg, w, k.0)| - i
  {
    hide Passes, Wins, IsTrail, IsWay, Finds, Declares, PassedOn, Probe, ImportedDeclaration;
    trail := [];
    var items := ModuleAt(cfg, w, k.0);
    if i == |items| {
      hide Leads;
      assert Closed(cfg, w, stack, st.followed);
    } else {
      var item := items[i];
      assert items[i..][0] == item && items[i..][1..] == items[i + 1..];
      var passed := PassedOn(item, k.1);
      forall t
        ensures Passes(cfg, w, k, item, t) <==>
          passed == Some(t.1) && Probe(w, cfg.Candidates(cfg.join(k.0, item.specifier))).0 == Some(t.0)
      {
        StepIsPassed(cfg, w, k, item, t);
      }
      if passed.None? {
        trail := SearchesBehind(cfg, w, u, st, stack, k, i + 1);
      } else {
        var (next, tried) := Probe(w, cfg.Candidates(cfg.join(k.0, item.specifier)));
        var st1 := st.Ask(k.0, item.specifier, tried);
        if next.None? {
          trail := SearchesBehind(cfg, w, u, st1, stack, k, i + 1);
        } else {
          var to := (next.value, passed.value);
          var st2 := st1.(sources := st1.sources[next.value := w.TextAt(next.value).value]).Depend(next.value);
          var inner := Searches(cfg, w, u, st2, stack + {k}, to.0, to.1);
          var (found, st3) := ImportedDeclaration(cfg, w, u, st2, to.0, w.TextAt(to.0).value, to.1);
          if !st3.escaped && found == Done(None) {
            trail := SearchesBehind(cfg, w, u, st3, stack, k, i + 1);
          } else if !st3.escaped {
            trail := [k] + inner;
            StepOntoWay(cfg, w, st.followed, stack, k, i, to, found, inner);
          }
        }
      }
    }
  }

  /** The first item that leads on to something is the one that wins, or the one to stumble on. */
  lemma StepOntoWay(
      cfg: Config, w: World, followed: set<Key>, stack: set<Key>, k: Key, i: nat, to: Key,
      found: Outcome<Option<Found>>, inner: seq<Key>)
    requires i < |ModuleAt(cfg, w, k.0)| && Passes(cfg, w, k, ModuleAt(cfg, w, k.0)[i], to)
    requires k !in stack && !DeclaresName(cfg, w, k) && Closed(cfg, w, stack + {k}, followed)
    requires forall j, t :: 0 <= j < i && Passes(cfg, w, k, ModuleAt(cfg, w, k.0)[j], t) ==> t in followed
    requires found.Thrown? ==> Stumbles(cfg, w, stack + {k}, to)
    requires found.Done? ==> found.value.Some? && inner != [] && inner[0] == to
    requires found.Done? ==> IsTrail(cfg, w, stack + {k}, inner, found.value.value)
    ensures found.Thrown? ==> Stumbles(cfg, w, stack, k)
    ensures found.Done? ==> IsTrail(cfg, w, stack, [k] + inner, found.value.value)
  {
    var items := ModuleAt(cfg, w, k.0);
    assert items[i] in items && Leads(cfg, w, k, to);
    if found.Thrown? {
      StumblesOn(cfg, w, stack, k, to);
    } else {
      hide IsWay, Passes, Leads, Exports, DeclaresName, Closed;
      forall j, t | 0 <= j < i && Passes(cfg, w, k, items[j], t) ensures !Exports(cfg, w, stack + {k}, t) {
        NothingBehind(cfg, w, stack + {k}, followed, t);
      }
      assert Wins(cfg, w, stack + {k}, k, i, to);
      assert ([k] + inner)[1..] == inner;
    }
  }

  lemma StumblesOn(cfg: Config, w: World, stack: set<Key>, k: Key, to: Key)
    requires k !in stack && !DeclaresName(cfg, w, k) && Leads(cfg, w, k, to) && Stumbles(cfg, w, stack + {k}, to)
    ensures Stumbles(cfg, w, stack, k)
  {
    hide DeclaresName, Leads;
    var way: seq<Key> :| IsWay(cfg, w, stack + {k}, to, way) && Broken(cfg, w, way[|way| - 1].0);
    assert IsWay(cfg, w, stack, k, [k] + way);
  }

  // ---- what an import finds

  lemma {:induction false} TrailIsWay(cfg: Config, w: World, avoid: set<Key>, trail: seq<Key>, found: Found)
    requires IsTrail(cfg, w, avoid, trail, found)
    ensures IsWay(cfg, w, avoid, trail[0], trail) && DeclaresName(cfg, w, trail[|trail| - 1])
    decreases |trail|
  {
    if |trail| > 1 {
      var rest := trail[1..];
      TrailIsWay(cfg, w, avoid + {trail[0]}, rest, found);
      var i: nat :| Wins(cfg, w, avoid + {trail[0]}, trail[0], i, trail[1]);
      assert ModuleAt(cfg, w, trail[0].0)[i] in ModuleAt(cfg, w, trail[0].0);
      forall j | 0 <= j < |trail| ensures trail[j] !in avoid {
        assert j > 0 ==> trail[j] == rest[j - 1];
      }
      forall j | 0 <= j < |trail| - 1 ensures !DeclaresName(cfg, w, trail[j]) && Leads(cfg, w, trail[j], trail[j + 1]) {
        if j > 0 {
          assert trail[j] == rest[j - 1] && trail[j + 1] == rest[j];
        }
      }
    }
  }

  lemma PassedToOne(cfg: Config, w: World, k: Key, item: Item, a: Key, b: Key)
    requires Passes(cfg, w, k, item, a) && Passes(cfg, w, k, item, b)
    ensures a == b
  {
    StepIsPassed(cfg, w, k, item, a);
    StepIsPassed(cfg, w, k, item, b);
  }

  /** There is one such trail at most, so it says which declaration is found. */
  lemma {:induction false} TrailIsUnique(
      cfg: Config, w: World, avoid: set<Key>, a: seq<Key>, found: Found, b: seq<Key>, found': Found)
    requires IsTrail(cfg, w, avoid, a, found) && IsTrail(cfg, w, avoid, b, found') && a[0] == b[0]
    ensures a == b && found == found'
    decreases |a|
  {
    var k := a[0];
    if |a| == 1 || |b| == 1 {
      assert DeclaresName(cfg, w, k);
      assert |a| == |b| == 1;
      assert a == b;
    } else {
      var avoid' := avoid + {k};
      SameNext(cfg, w, avoid, a, found, b, found');
      TrailIsUnique(cfg, w, avoid', a[1..], found, b[1..], found');
      assert a == [k] + a[1..] && b == [k] + b[1..];
    }
  }

  lemma SameNext(cfg: Config, w: World, avoid: set<Key>, a: seq<Key>, found: Found, b: seq<Key>, found': Found)
    requires IsTrail(cfg, w, avoid, a, found) && IsTrail(cfg, w, avoid, b, found') && a[0] == b[0]
    requires |a| > 1 && |b| > 1
    ensures a[1] == b[1]
  {
    var k, avoid' := a[0], avoid + {a[0]};
    var i: nat :| Wins(cfg, w, avoid', k, i, a[1]);
    var j: nat :| Wins(cfg, w, avoid', k, j, b[1]);
    TrailIsWay(cfg, w, avoid', a[1..], found);
    TrailIsWay(cfg, w, avoid', b[1..], found');
    assert Exports(cfg, w, avoid', a[1]) && Exports(cfg, w, avoid', b[1]);
    hide Exports, Passes, IsWay, IsTrail;
    assert i == j;
    PassedToOne(cfg, w, k, ModuleAt(cfg, w, k.0)[i], a[1], b[1]);
  }

  /**
   * An import of a name from a file, with nothing followed yet, finds a
   * declaration exactly when the name is exported there, over any re-exports,
   * cyclic ones included; it finds the one at the end of the trail on which the
   * first re-export that leads to a declaration wins; and it throws only where a
   * file on the way does not parse.
   */
  lemma ImportFindsExport(cfg: Config, w: World, st: Reader, path: Path, name: string) returns (trail: seq<Key>)
    requires w.TextAt(path).Some? && name in NamesOf(cfg, w) && st.followed == {} && !st.escaped
    ensures var r := ImportedDeclaration(cfg, w, Universe(cfg, w), st, path, w.TextAt(path).value, name).0;
            (r.Thrown? ==> Stumbles(cfg, w, {}, (path, name))) &&
            (r.Done? ==> (r.value.Some? <==> Exports(cfg, w, {}, (path, name)))) &&
            (r.Done? && r.value.Some? ==>
              trail != [] && trail[0] == (path, name) && IsTrail(cfg, w, {}, trail, r.value.value))
  {
    var u := Universe(cfg, w);
    trail := Searches(cfg, w, u, st, {}, path, name);
    ImportedStays(cfg, w, st, path, w.TextAt(path).value, name);
    var r := ImportedDeclaration(cfg, w, u, st, path, w.TextAt(path).value, name);
    if r.0.Done? && r.0.value.None? {
      NothingBehind(cfg, w, {}, r.1.followed, (path, name));
    }
    if r.0.Done? && r.0.value.Some? {
      TrailIsWay(cfg, w, {}, trail, r.0.value.value);
    }
  }

  // ---- what a name in a file resolves to

  /** Where an import's specifier leads, if it leads to a file that is followed. */
  ghost predicate Targets(cfg: Config, w: World, from: Path, specifier: string, target: Path) {
    Finds(cfg, w, from, specifier, target) && cfg.followable(target)
  }

  lemma TargetIsProbed(cfg: Config, w: World, from: Path, specifier: string, target: Path)
    ensures Targets(cfg, w, from, specifier, target) <==>
      Probe(w, cfg.Candidates(cfg.join(from, specifier))).0 == Some(target) && cfg.followable(target)
  {
    ProbeFinds(w, cfg.Candidates(cfg.join(from, specifier)), target);
  }

  /** The declaration exported under the imported name, and what its file adds to the reader. */
  ghost predicate IsExport(
      cfg: Config, w: World, st: Reader, later: Reader, k: Key, trail: seq<Key>, resolved: (Decl, Path), items: Module)
  {
    trail != [] && trail[0] == k && IsTrail(cfg, w, {}, trail, Found(resolved.0, resolved.1, items)) &&
    forall p :: p in later.shadowed <==>
      p in st.shadowed || (p == resolved.1 && exists item <- items :: Shadows(cfg, item))
  }

  lemma FoundIsAdded(cfg: Config, st: Reader, later: Reader, found: Found)
    requires later.shadowed == st.shadowed
    ensures forall p :: p in later.AddModule(cfg, found.path, found.items).shadowed <==>
      p in st.shadowed || (p == found.path && exists item <- found.items :: Shadows(cfg, item))
  {
    hide Shadows, SameKey, Reader.AddModule;
    forall p
      ensures p in later.AddModule(cfg, found.path, found.items).shadowed <==>
        p in st.shadowed || (p == found.path && exists item <- found.items :: Shadows(cfg, item))
    {
      ShadowsAreAdded(cfg, later, found.path, found.items, (p, ""));
    }
  }

  lemma FollowedIsFresh(cfg: Config, w: World, st: Reader, name: string, from: Path, target: Path)
    requires (from, name) in st.typeImports && w.TextAt(target).Some?
    ensures var st2 := Followed(cfg, w, st, name, from, target);
            st2.followed == st.followed && st2.escaped == st.escaped && st2.shadowed == st.shadowed
  {
  }

  /**
   * A name that a file imports, resolved before anything was followed, is the
   * declaration that the file it is imported from exports, and nothing when that
   * file exports none.
   */
  lemma ImportResolvesToExport(cfg: Config, w: World, st: Reader, name: string, from: Path, target: Path)
    returns (trail: seq<Key>, items: Module)
    requires (from, name) !in st.declarations && (from, name) in st.typeImports
    requires st.followed == {} && !st.escaped && st.typeImports[(from, name)].imported in NamesOf(cfg, w)
    requires Targets(cfg, w, from, st.typeImports[(from, name)].specifier, target)
    ensures var k := (target, st.typeImports[(from, name)].imported);
            var (r, later) := Resolve(cfg, w, Universe(cfg, w), st, name, from, {}, 0);
            (r.Thrown? ==> Stumbles(cfg, w, {}, k)) &&
            (r.Done? ==> (r.value.Some? <==> Exports(cfg, w, {}, k))) &&
            (r.Done? && r.value.Some? ==> IsExport(cfg, w, st, later, k, trail, r.value.value, items))
  {
    var i, u := st.typeImports[(from, name)], Universe(cfg, w);
    TargetIsProbed(cfg, w, from, i.specifier, target);
    assert w.TextAt(target).Some? by { ProbeIsFirst(w, cfg.Candidates(cfg.join(from, i.specifier))); }
    var st2 := Followed(cfg, w, st, name, from, target);
    var text := w.TextAt(target).value;
    assert IsImport(cfg, w, st, name, from, target, i.imported);
    ResolvesThrough(cfg, w, u, st, name, from, target, i.imported, {}, 0);
    FollowedIsFresh(cfg, w, st, name, from, target);
    hide *;
    trail := ImportFindsExport(cfg, w, st2, target, i.imported);
    ImportedStays(cfg, w, st2, target, text, i.imported);
    var (found, st3) := ImportedDeclaration(cfg, w, u, st2, target, text, i.imported);
    items := [];
    if found.Done? && found.value.Some? {
      var f := found.value.value;
      items := f.items;
      FoundIsAdded(cfg, st, st3, f);
      ExportIsKept(cfg, w, st, st3.AddModule(cfg, f.path, items), (target, i.imported), trail, f);
    }
  }

  lemma ExportIsKept(
      cfg: Config, w: World, st: Reader, later: Reader, k: Key, trail: seq<Key>, found: Found)
    requires trail != [] && trail[0] == k && IsTrail(cfg, w, {}, trail, found)
    requires forall p :: p in later.shadowed <==>
      p in st.shadowed || (p == found.path && exists item <- found.items :: Shadows(cfg, item))
    ensures IsExport(cfg, w, st, later, k, trail, (found.decl, found.path), found.items)
  {
    hide IsTrail, Shadows;
  }

  /** Without a file to follow it is nothing. */
  lemma NoTargetNoExport(cfg: Config, w: World, u: set<Key>, st: Reader, name: string, from: Path)
    requires (from, name) !in st.declarations
    requires (from, name) in st.typeImports ==>
      forall target :: !Targets(cfg, w, from, st.typeImports[(from, name)].specifier, target)
    ensures Resolve(cfg, w, u, st, name, from, {}, 0).0 == Done(None)
  {
    if (from, name) in st.typeImports {
      var i := st.typeImports[(from, name)];
      var next := Probe(w, cfg.Candidates(cfg.join(from, i.specifier))).0;
      if next.Some? {
        TargetIsProbed(cfg, w, from, i.specifier, next.value);
      }
    }
  }

  /**
   * A property whose type is imported, over any re-exports, from an alias of
   * `AttrTag` is an attribute tag, an array of them if the alias is in an array,
   * where nothing was followed before and the alias's file means that `AttrTag`.
   */
  lemma ExportedTagIsDeclared(
      cfg: Config, w: World, st: Reader, name: string, from: Path, target: Path, trail: seq<Key>, found: Found, n: nat)
    requires (from, name) !in st.declarations && (from, name) in st.typeImports
    requires st.followed == {} && !st.escaped && st.typeImports[(from, name)].imported in NamesOf(cfg, w)
    requires var i := st.typeImports[(from, name)];
             Targets(cfg, w, from, i.specifier, target) && trail != [] && trail[0] == (target, i.imported) &&
             !Stumbles(cfg, w, {}, (target, i.imported))
    requires IsTrail(cfg, w, {}, trail, found) && found.decl == Alias(Wrapped(AttrTag, n))
    requires found.path !in st.shadowed && !exists item <- found.items :: Shadows(cfg, item)
    ensures Classify(cfg, w, Universe(cfg, w), st, Ref(name), false, from, {}, 0).0 ==
      Done(Declared(if n > 0 then Array else Required))
  {
    var u, k := Universe(cfg, w), (target, st.typeImports[(from, name)].imported);
    UnwrapIsExact(AttrTag, n);
    ResolveAlike(cfg, w, u, st, name, from, {}, 1);
    ClassifyReference(cfg, w, u, st, name, from);
    var trail', items := ImportResolvesToExport(cfg, w, st, name, from, target);
    ExportedThere(cfg, w, trail, found);
    hide Classify, Resolve, Eventually, Universe, Exports, IsTrail, Shadows, Targets, Stumbles;
    var (r, later) := Resolve(cfg, w, u, st, name, from, {}, 0);
    assert r.Done? && r.value.Some?;
    TrailIsUnique(cfg, w, {}, trail, found, trail', Found(r.value.value.0, r.value.value.1, items));
  }

  lemma ExportedThere(cfg: Config, w: World, trail: seq<Key>, found: Found)
    requires IsTrail(cfg, w, {}, trail, found)
    ensures Exports(cfg, w, {}, trail[0])
  {
    TrailIsWay(cfg, w, {}, trail, found);
  }
}
