/**
 * The cache of callee reads, validated by snapshots of the dependencies
 * (packages/core/src/callee-input.ts).
 */
module CalleeCache {
  import CalleeAnalyzer
  import opened CalleeInput
  import CalleeProbes
  import opened Wrappers

  /** A file's text and modification time; an editor's text has no time. */
  datatype Snapshot = Snapshot(mtime: Option<nat>, text: Text)

  /** `sourceSnapshot`; nothing when reading throws. */
  function SnapshotAt(w: World, p: Path): Option<Snapshot> {
    if p in w.open then Some(Snapshot(None, w.open[p]))
    else if p in w.disk then Some(Snapshot(Some(w.disk[p].mtime), w.disk[p].text))
    else None
  }

  function SnapshotOf(w: World, p: Path): Snapshot {
    var now := SnapshotAt(w, p);
    if now.Some? then now.value else Snapshot(None, "")
  }

  method SnapshotDependencies(w: World, dependencies: seq<Path>, sources: map<Path, Text>)
    returns (snapshots: map<Path, Snapshot>)
    requires forall p <- sources :: w.TextAt(p) == Some(sources[p])
    ensures snapshots.Keys == (set p | p in dependencies)
    ensures forall p <- snapshots :: snapshots[p] == SnapshotOf(w, p)
  {
    snapshots := map[];
    for i := 0 to |dependencies|
      invariant snapshots.Keys == (set p | p in dependencies[..i])
      invariant forall p <- snapshots :: snapshots[p] == SnapshotOf(w, p)
    {
      var p := dependencies[i];
      var now := SnapshotAt(w, p);
      if now.Some? {
        snapshots := snapshots[p := Snapshot(now.value.mtime, if p in sources then sources[p] else now.value.text)];
      } else {
        snapshots := snapshots[p := Snapshot(None, "")];
      }
    }
  }

  /** One dependency's snapshot still holds, by the code's test. */
  predicate StillHolds(snapshot: Snapshot, w: World, p: Path) {
    var now := SnapshotAt(w, p);
    if now.Some? then now.value == snapshot else snapshot.mtime.None?
  }

  method SnapshotsMatch(snapshots: map<Path, Snapshot>, w: World) returns (r: bool)
    ensures r <==> forall p <- snapshots :: StillHolds(snapshots[p], w, p)
  {
    var rest := snapshots.Keys;
    while rest != {}
      invariant rest <= snapshots.Keys
      invariant forall p <- snapshots :: p !in rest ==> StillHolds(snapshots[p], w, p)
    {
      var p :| p in rest;
      if !StillHolds(snapshots[p], w, p) { return false; }
      rest := rest - {p};
    }
    r := true;
  }

  /**
   * The changes the snapshots do not show: a text only the editor had is gone,
   * or a file that was missing is now an empty editor buffer.
   */
  predicate Slips(w0: World, w: World, p: Path) {
    (p in w0.open && w.TextAt(p).None?) || (w0.TextAt(p).None? && p in w.open && w.open[p] == "")
  }

  /** A snapshot holds exactly when its file is as it was, or slipped. */
  lemma SnapshotHoldsExactly(w0: World, w: World, p: Path)
    ensures StillHolds(SnapshotOf(w0, p), w, p) <==> SnapshotAt(w0, p) == SnapshotAt(w, p) || Slips(w0, w, p)
  {
  }

  datatype Result = Result(input: Input, dependencies: seq<Path>)

  /** What a read without a cache answers: after a parse failure only the callee itself is a dependency. */
  function Fresh(cfg: Config, w: World, path: Path): Result {
    if w.TextAt(path).None? then Result(NoInput, [path])
    else
      var (input, reader) := Read(cfg, w, path);
      if input.Failed? then Result(Failed, [path]) else Result(input, reader.dependencies)
  }

  datatype Entry = Entry(key: Path, mtime: Option<nat>, source: Text, result: Result, snapshots: map<Path, Snapshot>)

  const MAX_CACHED_CALLEES := 256

  predicate DistinctKeys(es: seq<Entry>) { forall i, j :: 0 <= i < j < |es| ==> es[i].key != es[j].key }

  /** `cache.delete(key)`. */
  method Deleted(es: seq<Entry>, key: Path) returns (kept: seq<Entry>)
    requires DistinctKeys(es)
    ensures forall x <- kept :: x in es && x.key != key
    ensures |kept| <= |es| && forall e: Entry :: e.key == key ==> DistinctKeys(kept + [e])
  {
    kept := [];
    for i := 0 to |es|
      invariant |kept| <= i && DistinctKeys(kept)
      invariant forall x <- kept :: x in es[..i] && x.key != key
    {
      if es[i].key != key {
        forall x | x in kept ensures x.key != es[i].key {
          var j :| 0 <= j < i && es[j] == x;
        }
        kept := kept + [es[i]];
      }
    }
  }

  /** The loop that deletes the oldest entries; it stops before the one just set. */
  method Newest(es: seq<Entry>) returns (kept: seq<Entry>)
    requires es != [] && DistinctKeys(es)
    ensures kept != [] && |kept| <= MAX_CACHED_CALLEES && DistinctKeys(kept)
    ensures kept[|kept| - 1] == es[|es| - 1] && forall x <- kept :: x in es
  {
    kept := es;
    while |kept| > MAX_CACHED_CALLEES
      invariant kept != [] && DistinctKeys(kept)
      invariant kept[|kept| - 1] == es[|es| - 1] && forall x <- kept :: x in es
    {
      kept := kept[1..];
    }
  }

  /** One lookup's cache: entries by path, oldest first, as a `Map` keeps them. */
  class CalleeInputCache {
    const cfg: Config
    var entries: seq<Entry>
    /** The file system each entry was made from. */
    ghost var origins: map<Path, World>

    constructor (cfg: Config)
      ensures Valid() && entries == []
    {
      this.cfg := cfg;
      entries := [];
      origins := map[];
    }

    /** The entry is what reading its callee in its origin gave. */
    ghost predicate Made(e: Entry)
      reads this
    {
      e.key in origins &&
      var w0 := origins[e.key];
      SnapshotAt(w0, e.key) == Some(Snapshot(e.mtime, e.source)) &&
      e.result == Fresh(cfg, w0, e.key) &&
      e.snapshots.Keys == (set p | p in e.result.dependencies) &&
      forall p <- e.snapshots :: e.snapshots[p] == SnapshotOf(w0, p)
    }

    ghost predicate Valid()
      reads this
    {
      |entries| <= MAX_CACHED_CALLEES &&
      DistinctKeys(entries) &&
      forall e <- entries :: Made(e)
    }

    method Find(path: Path) returns (e: Option<Entry>)
      ensures e.Some? ==> e.value in entries && e.value.key == path
    {
      for i := 0 to |entries| {
        if entries[i].key == path { return Some(entries[i]); }
      }
      e := None;
    }

    /** `touchAndEvict`: the entry becomes the newest, and the oldest make room. */
    method TouchAndEvict(e: Entry, ghost w: World)
      requires Valid()
      requires SnapshotAt(w, e.key) == Some(Snapshot(e.mtime, e.source)) && e.result == Fresh(cfg, w, e.key)
      requires e.snapshots.Keys == (set p | p in e.result.dependencies)
      requires forall p <- e.snapshots :: e.snapshots[p] == SnapshotOf(w, p)
      modifies this
      ensures Valid() && e in entries && origins == old(origins)[e.key := w]
    {
      hide Fresh, SnapshotOf, SnapshotAt;
      var kept := Deleted(entries, e.key);
      kept := Newest(kept + [e]);
      forall x | x in kept && x != e ensures old(Made(x)) && x.key != e.key {
        assert x in entries;
      }
      entries, origins := kept, origins[e.key := w];
      assert entries[|entries| - 1] == e;
      forall x | x in entries ensures Made(x) {
        assert x != e ==> old(Made(x)) && origins[x.key] == old(origins)[x.key];
      }
    }

    /**
     * `readCalleeInput` once the callee's path is known. The answer is a fresh
     * read's, unless a cached one is given back after a change the snapshots
     * do not show: the cached read had failed to parse something, or one of
     * its dependencies slipped.
     */
    method ReadCalleeInput(w: World, path: Path) returns (result: Result)
      requires Valid()
      modifies this
      ensures Valid()
      ensures result == Fresh(cfg, w, path) ||
              (path in old(origins) && result == Fresh(cfg, old(origins)[path], path) &&
                (result.input.Failed? || exists p <- result.dependencies :: Slips(old(origins)[path], w, p)))
    {
      hide ReadInputAt, Universe;
      var snapshot := SnapshotAt(w, path);
      if snapshot.None? { return Result(NoInput, [path]); }
      var Snapshot(mtime, source) := snapshot.value;
      var cached := Find(path);
      if cached.Some? && cached.value.mtime == mtime && cached.value.source == source {
        var same := SnapshotsMatch(cached.value.snapshots, w);
        if same {
          HitIsFresh(cached.value, w);
          return cached.value.result;
        }
      }
      var input, dependencies, parsedSources := CalleeAnalyzer.ReadInput(cfg, w, path, source);
      result := Result(input, if input.Failed? then [path] else dependencies);
      var snapshots := SnapshotDependencies(w, result.dependencies, parsedSources);
      TouchAndEvict(Entry(path, mtime, source, result, snapshots), w);
    }

    lemma HitIsFresh(e: Entry, w: World)
      requires Made(e) && SnapshotAt(w, e.key) == Some(Snapshot(e.mtime, e.source))
      requires forall p <- e.snapshots :: StillHolds(e.snapshots[p], w, p)
      ensures e.result == Fresh(cfg, w, e.key) || e.result.input.Failed? ||
              exists p <- e.result.dependencies :: Slips(origins[e.key], w, p)
    {
      var w0 := origins[e.key];
      if !e.result.input.Failed? && forall p <- e.result.dependencies :: !Slips(w0, w, p) {
        forall p | p in e.result.dependencies ensures w0.TextAt(p) == w.TextAt(p) {
          assert p in e.snapshots;
          SnapshotHoldsExactly(w0, w, p);
        }
        DependenciesDecide(cfg, w0, w, e.key);
      }
    }
  }

  /**
   * A candidate that was missing and is opened in the editor as an empty
   * buffer: every snapshot still holds, although probing now stops there.
   */
  lemma EmptyBufferGoesUnnoticed(cfg: Config, w0: World, base: Path, d: Path, dependencies: seq<Path>)
    requires w0.TextAt(d).None? && d in Probe(w0, cfg.Candidates(base)).1
    ensures var w := w0.(open := w0.open[d := ""]);
            (forall p <- dependencies :: StillHolds(SnapshotOf(w0, p), w, p)) &&
            Probe(w, cfg.Candidates(base)).0 == Some(d) && Probe(w0, cfg.Candidates(base)).0 != Some(d)
  {
    FirstOpened(w0, cfg.Candidates(base), d, "");
  }

  lemma {:induction false} FirstOpened(w0: World, candidates: seq<Path>, d: Path, text: Text)
    requires w0.TextAt(d).None? && d in Probe(w0, candidates).1
    ensures Probe(w0.(open := w0.open[d := text]), candidates).0 == Some(d)
    decreases |candidates|
  {
    if candidates[0] != d {
      assert w0.TextAt(candidates[0]).None?;
      FirstOpened(w0, candidates[1..], d, text);
    }
  }

  // ---- the import that names the callee

  /** A call target imported by a relative specifier: the probes are recorded only when none of them is there. */
  function ReadTarget(cfg: Config, w: World, importer: Path, specifier: string): (Option<Path>, Result) {
    var (path, tried) := Probe(w, cfg.Candidates(cfg.join(importer, specifier)));
    if path.Some? then (path, Fresh(cfg, w, path.value)) else (None, Result(NoInput, tried))
  }

  /** A candidate before the callee in the order of probing: the import tried it in vain. */
  predicate Vain(cfg: Config, w: World, importer: Path, specifier: string, d: Path) {
    d in Probe(w, cfg.Candidates(cfg.join(importer, specifier))).1 && w.TextAt(d).None?
  }

  /** The read of the callee parses what it follows, and itself tries `d` for a specifier it follows. */
  ghost predicate TriedAgain(cfg: Config, w: World, path: Path, d: Path) {
    w.TextAt(path).Some? && !Read(cfg, w, path).0.Failed? && CalleeProbes.Tries(cfg, w, Read(cfg, w, path).1.asked, d)
  }

  /**
   * The dependencies handed back decide which file a found callee is exactly
   * when the read of the callee tries again whatever its import tried in vain:
   * creating any other candidate moves the target without touching a dependency.
   * When nothing was found all the candidates are handed back, and they decide.
   */
  lemma TargetIsDecided(cfg: Config, w: World, importer: Path, specifier: string)
    ensures var (path, result) := ReadTarget(cfg, w, importer, specifier);
            (forall w' :: Agree(w, w', result.dependencies) ==> ReadTarget(cfg, w', importer, specifier).0 == path) <==>
            (path.Some? ==> forall d :: Vain(cfg, w, importer, specifier, d) ==> TriedAgain(cfg, w, path.value, d))
  {
    var (path, result) := ReadTarget(cfg, w, importer, specifier);
    forall d | Vain(cfg, w, importer, specifier, d)
      ensures d in result.dependencies <==> path.None? || TriedAgain(cfg, w, path.value, d)
    {
      if path.Some? {
        CalleeProbes.DependenciesAreProbes(cfg, w, path.value);
      }
    }
    hide Fresh, Read;
    if d :| Vain(cfg, w, importer, specifier, d) && d !in result.dependencies {
      MovesTarget(cfg, w, importer, specifier, d);
      var w' := w.(open := w.open[d := "x"]);
      assert Agree(w, w', result.dependencies);
    } else {
      forall w' | Agree(w, w', result.dependencies) ensures ReadTarget(cfg, w', importer, specifier).0 == path {
        TargetStays(cfg, w, w', importer, specifier);
      }
    }
  }

  lemma MovesTarget(cfg: Config, w: World, importer: Path, specifier: string, d: Path)
    requires Vain(cfg, w, importer, specifier, d)
    ensures ReadTarget(cfg, w.(open := w.open[d := "x"]), importer, specifier).0 == Some(d)
    ensures ReadTarget(cfg, w, importer, specifier).0 != Some(d)
  {
    FirstOpened(w, cfg.Candidates(cfg.join(importer, specifier)), d, "x");
  }

  lemma TargetStays(cfg: Config, w: World, w': World, importer: Path, specifier: string)
    requires var result := ReadTarget(cfg, w, importer, specifier).1;
             Agree(w, w', result.dependencies) &&
             forall d :: Vain(cfg, w, importer, specifier, d) ==> d in result.dependencies
    ensures ReadTarget(cfg, w', importer, specifier).0 == ReadTarget(cfg, w, importer, specifier).0
  {
    var candidates := cfg.Candidates(cfg.join(importer, specifier));
    var (path, tried) := Probe(w, candidates);
    if path.Some? {
      CalleeIsRecorded(cfg, w, path.value);
    }
    TriedAreKnown(w, candidates);
    assert Agree(w, w', tried) by {
      forall p | p in tried ensures w.TextAt(p) == w'.TextAt(p) {
        assert w.TextAt(p).None? ==> Vain(cfg, w, importer, specifier, p);
      }
    }
    SameProbe(w, w', candidates);
  }

  /** The probes of a compile without registered readers. */
  const PROBES: seq<string> := [".mx", ".tsx", ".ts", ".jsx", ".js"]

  /** With these probes the literal path comes first, then each extension. */
  lemma CandidatesInOrder(cfg: Config, base: Path)
    requires cfg.extensions == PROBES
    ensures |cfg.Candidates(base)| > 4 &&
            cfg.Candidates(base)[..4] == [base, base + ".mx", base + ".tsx", base + ".ts"]
  {
    assert cfg.WithExtensions(base, 2) == [base + ".ts"] + cfg.WithExtensions(base, 3);
    assert cfg.WithExtensions(base, 1) == [base + ".tsx"] + cfg.WithExtensions(base, 2);
    assert cfg.WithExtensions(base, 0) == [base + ".mx"] + cfg.WithExtensions(base, 1);
  }

  /** A probe ends at the first of its candidates that is there. */
  lemma {:induction false} ProbeEndsAt(w: World, candidates: seq<Path>, k: nat)
    requires k < |candidates| && w.TextAt(candidates[k]).Some?
    requires forall i :: 0 <= i < k ==> w.TextAt(candidates[i]).None?
    ensures Probe(w, candidates).0 == Some(candidates[k])
    decreases k
  {
    if k > 0 {
      ProbeEndsAt(w, candidates[1..], k - 1);
    }
  }

  /**
   * `./card`, found as `./card.ts`, which follows nothing. Then `./card.tsx` is
   * created, which is probed before it: the callee is another file, and no
   * dependency has changed.
   */
  lemma CreatedCandidateGoesUnnoticed(cfg: Config, w: World, importer: Path, specifier: string, mtime: nat)
    requires cfg.extensions == PROBES
    requires var base := cfg.join(importer, specifier);
             w.TextAt(base).None? && w.TextAt(base + ".mx").None? && w.TextAt(base + ".tsx").None? &&
             w.TextAt(base + ".ts").Some? && cfg.parse(w.TextAt(base + ".ts").value) == Some([])
    ensures var base := cfg.join(importer, specifier);
            var (path, result) := ReadTarget(cfg, w, importer, specifier);
            var w' := w.(disk := w.disk[base + ".tsx" := File("", mtime)]);
            path == Some(base + ".ts") && result.dependencies == [base + ".ts"] && Agree(w, w', result.dependencies) &&
            ReadTarget(cfg, w', importer, specifier).0 == Some(base + ".tsx")
  {
    var base := cfg.join(importer, specifier);
    var candidates := cfg.Candidates(base);
    CandidatesInOrder(cfg, base);
    var four := [base, base + ".mx", base + ".tsx", base + ".ts"];
    assert forall i :: 0 <= i < 4 ==> candidates[i] == candidates[..4][i] == four[i];
    assert (base + ".mx")[|base|..] == ".mx" && (base + ".tsx")[|base|..] == ".tsx";
    assert (base + ".ts")[|base|..] == ".ts";
    var w' := w.(disk := w.disk[base + ".tsx" := File("", mtime)]);
    ProbeEndsAt(w, candidates, 3);
    ProbeEndsAt(w', candidates, 2);
    var read := Read(cfg, w, base + ".ts");
    assert read == (NoInput, Start(base + ".ts", w.TextAt(base + ".ts").value));
  }

  /** The callee itself is always among its dependencies. */
  lemma CalleeIsRecorded(cfg: Config, w: World, path: Path)
    ensures path in Fresh(cfg, w, path).dependencies
  {
    if w.TextAt(path).Some? {
      assert path in Start(path, w.TextAt(path).value).dependencies;
    }
  }

  lemma {:induction false} TriedAreKnown(w: World, candidates: seq<Path>)
    ensures forall d <- Probe(w, candidates).1 :: w.TextAt(d).None? || Probe(w, candidates).0 == Some(d)
    decreases |candidates|
  {
    if candidates != [] && w.TextAt(candidates[0]).None? {
      TriedAreKnown(w, candidates[1..]);
    }
  }
}
