/** Loading the include closure of a script program (src/script_loading.rs): a
    stack of paths still to visit, open buffers in front of the disk, and read
    errors kept as results. */
module ScriptLoading {
  import opened Sequences
  import opened Wrappers

  type Path = string

  type Sources = map<Path, Result<string, string>>

  /** The file system and the include scan, as the loader sees them: `edges` lists
      the includes of a text at a path, with the target of each one that is
      static; whatever is not on disk fails with some message. */
  datatype World = World(
    normalize: Path -> Path,
    edges: (Path, string) -> seq<Option<Path>>,
    disk: map<Path, string>,
    failure: Path -> string,
    buffers: map<Path, string>)
  {
    function Readable(): set<Path> {
      disk.Keys + buffers.Keys
    }

    function ReadDisk(p: Path): Result<string, string> {
      if p in disk then Ok(disk[p]) else Err(failure(p))
    }

    function Read(p: Path): (r: Result<string, string>)
      ensures r.Ok? <==> p in Readable()
    {
      if p in buffers then Ok(buffers[p]) else ReadDisk(p)
    }

    function Normalized(paths: seq<Path>): set<Path> {
      set i | 0 <= i < |paths| :: normalize(paths[i])
    }

    /** The normalized targets of the file at `p`; none when it cannot be read. */
    function Includes(p: Path): set<Path> {
      match Read(p)
      case Err(_) => {}
      case Ok(text) => Normalized(Targets(edges(p, text)))
    }

    ghost predicate Closed(paths: set<Path>) {
      forall p, q :: p in paths && q in Includes(p) ==> q in paths
    }

    /** The least set of paths that holds the entries and what they include. */
    ghost predicate IsClosure(entries: seq<Path>, paths: set<Path>) {
      && Normalized(entries) <= paths && Closed(paths)
      && forall other :: Normalized(entries) <= other && Closed(other) ==> paths <= other
    }

    ghost predicate IsLoad(entries: seq<Path>, sources: Sources) {
      && IsClosure(entries, sources.Keys)
      && forall p :: p in sources ==> sources[p] == Read(p)
    }
  }

  function Targets(edges: seq<Option<Path>>): seq<Path> {
    if edges == [] then []
    else (if edges[0].Some? then [edges[0].value] else []) + Targets(edges[1..])
  }

  // ---- The loop's invariant ----

  /** Nothing is lost: what is not loaded yet is on the stack. */
  ghost predicate Covers(w: World, entries: seq<Path>, loaded: set<Path>, pending: seq<Path>) {
    && w.Normalized(entries) <= loaded + w.Normalized(pending)
    && forall p, q :: p in loaded && q in w.Includes(p) ==> q in loaded + w.Normalized(pending)
  }

  /** Nothing is too much: every closed set holds what is loaded and pending. */
  ghost predicate Needed(w: World, entries: seq<Path>, loaded: set<Path>, pending: seq<Path>) {
    forall other :: w.Normalized(entries) <= other && w.Closed(other) ==> loaded + w.Normalized(pending) <= other
  }

  lemma NormalizedConcat(w: World, a: seq<Path>, b: seq<Path>)
    ensures w.Normalized(a + b) == w.Normalized(a) + w.Normalized(b)
  {
    var all := a + b;
    forall p | p in w.Normalized(a) + w.Normalized(b)
      ensures p in w.Normalized(all)
    {
      if p in w.Normalized(a) {
        var i :| 0 <= i < |a| && w.normalize(a[i]) == p;
        assert all[i] == a[i];
      } else {
        var i :| 0 <= i < |b| && w.normalize(b[i]) == p;
        assert all[|a| + i] == b[i];
      }
    }
  }

  lemma NormalizedOne(w: World, p: Path)
    ensures w.Normalized([p]) == {w.normalize(p)}
  {
    assert w.normalize([p][0]) in w.Normalized([p]);
  }

  /** Popping a path and loading it, together with pushing what it includes. */
  lemma LoadKeeps(w: World, entries: seq<Path>, loaded: set<Path>, rest: seq<Path>, popped: Path, targets: seq<Path>)
    requires Covers(w, entries, loaded, rest + [popped]) && Needed(w, entries, loaded, rest + [popped])
    requires w.Normalized(targets) == w.Includes(w.normalize(popped))
    ensures Covers(w, entries, loaded + {w.normalize(popped)}, rest + targets)
    ensures Needed(w, entries, loaded + {w.normalize(popped)}, rest + targets)
  {
    NormalizedConcat(w, rest, [popped]);
    NormalizedConcat(w, rest, targets);
    NormalizedOne(w, popped);
    hide World.Includes, World.Normalized, World.Closed;
    var path := w.normalize(popped);
    assert loaded + w.Normalized(rest + [popped]) <= (loaded + {path}) + w.Normalized(rest + targets);
    forall p, q | p in loaded + {path} && q in w.Includes(p)
      ensures q in (loaded + {path}) + w.Normalized(rest + targets)
    {
      assert p != path ==> q in loaded + w.Normalized(rest + [popped]);
    }
    forall other | w.Normalized(entries) <= other && w.Closed(other)
      ensures (loaded + {path}) + w.Normalized(rest + targets) <= other
    {
      ClosedHolds(w, other, path);
    }
  }

  lemma ClosedHolds(w: World, paths: set<Path>, p: Path)
    requires w.Closed(paths) && p in paths
    ensures w.Includes(p) <= paths
  {
  }

  /** Popping a path that is loaded already. */
  lemma SkipKeeps(w: World, entries: seq<Path>, loaded: set<Path>, rest: seq<Path>, popped: Path)
    requires Covers(w, entries, loaded, rest + [popped]) && Needed(w, entries, loaded, rest + [popped])
    requires w.normalize(popped) in loaded
    ensures Covers(w, entries, loaded, rest) && Needed(w, entries, loaded, rest)
  {
    NormalizedConcat(w, rest, [popped]);
    NormalizedOne(w, popped);
    hide World.Includes, World.Normalized, World.Closed;
    assert loaded + w.Normalized(rest + [popped]) == loaded + w.Normalized(rest);
  }

  lemma StartCovers(w: World, entries: seq<Path>)
    ensures Covers(w, entries, {}, entries) && Needed(w, entries, {}, entries) && Distinct<Path>([])
  {
  }

  lemma DistinctSnoc(paths: seq<Path>, p: Path)
    requires Distinct(paths) && p !in paths
    ensures Distinct(paths + [p])
  {
  }

  /** What is loaded is what reading gives, and `fetched` is what came from disk. */
  ghost predicate Faithful(w: World, sources: Sources, fetched: seq<Path>) {
    && (forall p :: p in sources ==> sources[p] == w.Read(p))
    && Distinct(fetched)
    && forall p :: p in fetched <==> p in sources && p !in w.buffers
  }

  lemma FaithfulOn(w: World, sources: Sources, fetched: seq<Path>, p: Path)
    requires Faithful(w, sources, fetched) && p !in sources
    ensures Faithful(w, sources[p := w.Read(p)], if p in w.buffers then fetched else fetched + [p])
    ensures sources[p := w.Read(p)].Keys == sources.Keys + {p}
  {
    DistinctSnoc(fetched, p);
  }

  /** What holds between two iterations. */
  ghost predicate Loading(w: World, entries: seq<Path>, sources: Sources, pending: seq<Path>, fetched: seq<Path>) {
    && Covers(w, entries, sources.Keys, pending) && Needed(w, entries, sources.Keys, pending)
    && Faithful(w, sources, fetched)
  }

  /** Load a path just popped, unless it is loaded already. */
  method LoadOne(w: World, ghost entries: seq<Path>, sources: Sources, rest: seq<Path>, popped: Path, ghost fetched: seq<Path>)
    returns (more: Sources, pending: seq<Path>, ghost fetchedNow: seq<Path>)
    requires Loading(w, entries, sources, rest + [popped], fetched)
    ensures Loading(w, entries, more, pending, fetchedNow)
    ensures Unloaded(w, more.Keys) < Unloaded(w, sources.Keys)
         || (Unloaded(w, more.Keys) == Unloaded(w, sources.Keys) && |pending| == |rest|)
  {
    hide Covers, Needed, Faithful, Unloaded, World.Read;
    var path := w.normalize(popped);
    if path in sources {
      SkipKeeps(w, entries, sources.Keys, rest, popped);
      return sources, rest, fetched;
    }
    var text, targets := Visit(w, path);
    LoadKeeps(w, entries, sources.Keys, rest, popped, targets);
    Shrinks(w, sources.Keys, path);
    FaithfulOn(w, sources, fetched, path);
    more, pending := sources[path := text], rest + targets;
    fetchedNow := if path in w.buffers then fetched else fetched + [path];
  }

  /** Load the include closure of the entries. `fetched` is the order in which files
      were read from disk: each at most once, and none that has an open buffer. */
  method LoadSources(w: World, entries: seq<Path>) returns (sources: Sources, ghost fetched: seq<Path>)
    ensures w.IsLoad(entries, sources)
    ensures Distinct(fetched) && forall p :: p in fetched <==> p in sources && p !in w.buffers
  {
    hide Loading, Unloaded, World.IsLoad, Distinct, World.Read;
    Starts(w, entries);
    sources, fetched := map[], [];
    var pending := entries;
    while pending != []
      invariant Loading(w, entries, sources, pending, fetched)
      decreases Unloaded(w, sources.Keys), |pending|
    {
      var popped, rest := pending[|pending| - 1], pending[..|pending| - 1];
      assert pending == rest + [popped];
      sources, pending, fetched := LoadOne(w, entries, sources, rest, popped, fetched);
    }
    Finished(w, entries, sources, fetched);
  }

  lemma Starts(w: World, entries: seq<Path>)
    ensures Loading(w, entries, map[], entries, [])
  {
    StartCovers(w, entries);
    hide Covers, Needed;
    var none: Sources := map[];
    assert none.Keys == {};
  }

  lemma Finished(w: World, entries: seq<Path>, sources: Sources, fetched: seq<Path>)
    requires Loading(w, entries, sources, [], fetched)
    ensures w.IsLoad(entries, sources)
    ensures Distinct(fetched) && forall p :: p in fetched <==> p in sources && p !in w.buffers
  {
    NothingPending(w, entries, sources.Keys);
    hide World.IsClosure, Distinct, Covers, Needed;
  }

  /** Read a file and list what it includes. */
  method Visit(w: World, path: Path) returns (text: Result<string, string>, targets: seq<Path>)
    ensures text == w.Read(path) && w.Normalized(targets) == w.Includes(path)
    ensures text.Err? ==> targets == []
  {
    if path in w.buffers {
      text := Ok(w.buffers[path]);
    } else {
      text := w.ReadDisk(path);
    }
    targets := if text.Ok? then Targets(w.edges(path, text.value)) else [];
  }

  /** How many readable files are not loaded yet. */
  ghost function Unloaded(w: World, loaded: set<Path>): nat {
    |w.Readable() - loaded|
  }

  lemma Shrinks(w: World, loaded: set<Path>, path: Path)
    requires path !in loaded
    ensures w.Read(path).Ok? ==> Unloaded(w, loaded + {path}) < Unloaded(w, loaded)
    ensures w.Read(path).Err? ==> Unloaded(w, loaded + {path}) == Unloaded(w, loaded)
  {
    var readable := w.Readable();
    if path in readable {
      assert readable - loaded == readable - (loaded + {path}) + {path};
    } else {
      assert readable - (loaded + {path}) == readable - loaded;
    }
  }

  lemma NothingPending(w: World, entries: seq<Path>, loaded: set<Path>)
    requires Covers(w, entries, loaded, []) && Needed(w, entries, loaded, [])
    ensures w.IsClosure(entries, loaded)
  {
    assert w.Normalized([]) == {};
    assert loaded + {} == loaded;
  }

  /** There is one result only, so the order in which paths are visited, and the
      order and repetition of the entries, make no difference. */
  lemma LoadIsUnique(w: World, entries: seq<Path>, others: seq<Path>, a: Sources, b: Sources)
    requires w.Normalized(entries) == w.Normalized(others)
    requires w.IsLoad(entries, a) && w.IsLoad(others, b)
    ensures a == b
  {
    assert a.Keys <= b.Keys && b.Keys <= a.Keys;
    assert forall p :: p in a ==> a[p] == b[p];
  }

  /** Following one include at a time. */
  ghost predicate Chain(w: World, chain: seq<Path>) {
    forall i :: 0 <= i < |chain| - 1 ==> chain[i + 1] in w.Includes(chain[i])
  }

  /** Whatever a chain of includes of readable files leads to is loaded. */
  lemma {:induction false} ChainsAreLoaded(w: World, entries: seq<Path>, sources: Sources, chain: seq<Path>)
    requires w.IsLoad(entries, sources) && chain != [] && Chain(w, chain) && chain[0] in w.Normalized(entries)
    ensures chain[|chain| - 1] in sources
    decreases |chain|
  {
    if |chain| > 1 {
      var before := chain[..|chain| - 1];
      assert Chain(w, before) by {
        assert forall i :: 0 <= i < |before| - 1 ==> chain[i + 1] in w.Includes(chain[i]);
      }
      ChainsAreLoaded(w, entries, sources, before);
      assert chain[|chain| - 2 + 1] in w.Includes(chain[|chain| - 2]);
    }
  }

  // ---- In terms of files and includes ----

  /** What is read at a path: the open buffer, or else the file on disk. */
  predicate TextAt(w: World, p: Path, text: string) {
    if p in w.buffers then text == w.buffers[p] else p in w.disk && text == w.disk[p]
  }

  /** The text at `p` has an include whose target normalizes to `q`. */
  ghost predicate IncludesFile(w: World, p: Path, q: Path) {
    exists text, i ::
      && TextAt(w, p, text) && 0 <= i < |w.edges(p, text)|
      && w.edges(p, text)[i].Some? && w.normalize(w.edges(p, text)[i].value) == q
  }

  /** A chain of includes from one of the entries to a file. */
  ghost predicate LeadsFrom(w: World, entries: seq<Path>, chain: seq<Path>, p: Path) {
    && chain != [] && chain[|chain| - 1] == p
    && (exists i :: 0 <= i < |entries| && w.normalize(entries[i]) == chain[0])
    && forall k :: 0 <= k < |chain| - 1 ==> IncludesFile(w, chain[k], chain[k + 1])
  }

  ghost predicate ReachedFrom(w: World, entries: seq<Path>, p: Path) {
    exists chain :: LeadsFrom(w, entries, chain, p)
  }

  lemma {:induction false} TargetsAre(edges: seq<Option<Path>>, target: Path)
    ensures target in Targets(edges) <==> exists i :: 0 <= i < |edges| && edges[i] == Some(target)
  {
    if edges != [] {
      TargetsAre(edges[1..], target);
      if i :| 0 <= i < |edges| && edges[i] == Some(target) {
        assert i > 0 ==> edges[1..][i - 1] == Some(target);
      }
    }
  }

  lemma IncludesAre(w: World, p: Path, q: Path)
    ensures q in w.Includes(p) <==> IncludesFile(w, p, q)
  {
    if w.Read(p).Ok? {
      var text := w.Read(p).value;
      var targets := Targets(w.edges(p, text));
      if q in w.Includes(p) {
        var k :| 0 <= k < |targets| && w.normalize(targets[k]) == q;
        TargetsAre(w.edges(p, text), targets[k]);
        assert TextAt(w, p, text);
      }
      if IncludesFile(w, p, q) {
        var t, i :| TextAt(w, p, t) && 0 <= i < |w.edges(p, t)| && w.edges(p, t)[i].Some? && w.normalize(w.edges(p, t)[i].value) == q;
        TargetsAre(w.edges(p, text), w.edges(p, t)[i].value);
        var k :| 0 <= k < |targets| && targets[k] == w.edges(p, t)[i].value;
      }
    }
  }

  lemma StepFrom(w: World, entries: seq<Path>, p: Path, q: Path)
    requires ReachedFrom(w, entries, p) && IncludesFile(w, p, q)
    ensures ReachedFrom(w, entries, q)
  {
    hide IncludesFile;
    var chain :| LeadsFrom(w, entries, chain, p);
    assert LeadsFrom(w, entries, chain + [q], q);
  }

  lemma EntryFrom(w: World, entries: seq<Path>, i: nat)
    requires i < |entries|
    ensures ReachedFrom(w, entries, w.normalize(entries[i]))
  {
    assert LeadsFrom(w, entries, [w.normalize(entries[i])], w.normalize(entries[i]));
  }

  /** Every loaded path is reached from an entry. */
  lemma LoadedIsReached(w: World, entries: seq<Path>, sources: Sources, p: Path)
    requires w.IsLoad(entries, sources) && p in sources
    ensures ReachedFrom(w, entries, p)
  {
    var reached := set q | q in sources.Keys && ReachedFrom(w, entries, q);
    forall q | q in w.Normalized(entries)
      ensures q in reached
    {
      var i :| 0 <= i < |entries| && w.normalize(entries[i]) == q;
      EntryFrom(w, entries, i);
    }
    forall a, b | a in reached && b in w.Includes(a)
      ensures b in reached
    {
      IncludesAre(w, a, b);
      StepFrom(w, entries, a, b);
    }
    assert w.Closed(reached);
    hide ReachedFrom;
    assert sources.Keys <= reached;
  }

  /** What is loaded is exactly what chains of includes lead to from the entries, and
      each file is held as its open buffer has it, or else as the disk does. */
  lemma LoadIs(w: World, entries: seq<Path>, sources: Sources, p: Path)
    requires w.IsLoad(entries, sources)
    ensures p in sources <==> ReachedFrom(w, entries, p)
    ensures p in sources ==>
      sources[p] == if p in w.buffers then Ok(w.buffers[p]) else if p in w.disk then Ok(w.disk[p]) else Err(w.failure(p))
  {
    if p in sources {
      LoadedIsReached(w, entries, sources, p);
    }
    if ReachedFrom(w, entries, p) {
      var chain :| LeadsFrom(w, entries, chain, p);
      forall k | 0 <= k < |chain| - 1
        ensures chain[k + 1] in w.Includes(chain[k])
      {
        IncludesAre(w, chain[k], chain[k + 1]);
      }
      hide IncludesFile;
      ChainsAreLoaded(w, entries, sources, chain);
    }
  }
}
