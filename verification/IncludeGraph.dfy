/** The include graph of a workspace (src/incremental.rs): what it means for a
    file to be reached, where its contents land in the module tree, and the state
    of the depth-first walk that records all of it. */
module IncludeGraph {
  import opened Sequences
  import opened Wrappers

  type Path = string

  /** One static include: the path as written, the file it denotes when the
      including file's directory is known, and the nested modules around it. */
  datatype Edge = Edge(path: string, target: Option<Path>, suffix: seq<string>)

  datatype UnresolvedInclude = UnresolvedInclude(from: Path, path: string)

  datatype CycleEdge = CycleEdge(from: Path, path: string, to: Path)

  datatype Package = Package(name: string, entry: Option<Path>)

  /** The seeded member files with their includes in source order, the packages in
      name order with their entry files, and path normalization. */
  datatype Workspace = Workspace(members: map<Path, seq<Edge>>, packages: seq<Package>, normalize: Path -> Path)
  {
    function Edges(p: Path): seq<Edge> {
      if p in members then members[p] else []
    }

    /** The member an include leads to. */
    function Target(e: Edge): Option<Path> {
      if e.target.Some? && normalize(e.target.value) in members then Some(normalize(e.target.value)) else None
    }

    predicate Leads(p: Path, i: nat, q: Path) {
      i < |Edges(p)| && Target(Edges(p)[i]) == Some(q)
    }

    predicate Seeded(package: Package) {
      package.entry.Some? && package.entry.value in members
    }
  }

  /** The host module of an included file: the includer's, extended by the modules
      around the include, without a leading package name when the includer sits in
      the root module. */
  function ChildHost(host: seq<string>, suffix: seq<string>, package: string): seq<string> {
    var full := host + suffix;
    if host == [] && full != [] && full[0] == package then full[1..] else full
  }

  // ---- Following includes ----

  /** A chain of includes: a first file, and the position of the include followed
      at each step. */
  datatype Trail = Start(at: Path) | Step(prev: Trail, edge: nat)

  function Origin(t: Trail): Path {
    match t
    case Start(at) => at
    case Step(prev, _) => Origin(prev)
  }

  /** The file a trail ends in, when every include on it leads to a member. */
  function End(w: Workspace, t: Trail): (p: Option<Path>)
    ensures p.Some? ==> p.value in w.members
  {
    match t
    case Start(at) => if at in w.members then Some(at) else None
    case Step(prev, edge) =>
      match End(w, prev)
      case None => None
      case Some(p) => if edge < |w.Edges(p)| then w.Target(w.Edges(p)[edge]) else None
  }

  ghost predicate Reaches(w: Workspace, p: Path, q: Path) {
    exists t :: Origin(t) == p && End(w, t) == Some(q)
  }

  /** A file that includes itself, through at least one include. */
  ghost predicate OnCycle(w: Workspace, p: Path) {
    exists t: Trail :: t.Step? && Origin(t) == p && End(w, t) == Some(p)
  }

  /** The member files some seeded package entry reaches. */
  ghost predicate Reached(w: Workspace, p: Path) {
    exists k, t :: 0 <= k < |w.packages| && w.Seeded(w.packages[k])
      && Origin(t) == w.packages[k].entry.value && End(w, t) == Some(p)
  }

  /** The host module along a trail of one package. */
  function TrailHost(w: Workspace, package: string, t: Trail): seq<string> {
    match t
    case Start(_) => []
    case Step(prev, edge) =>
      match End(w, prev)
      case None => []
      case Some(p) =>
        if edge < |w.Edges(p)| then ChildHost(TrailHost(w, package, prev), w.Edges(p)[edge].suffix, package) else []
  }

  // ---- The order of first visits ----

  function Unseen(w: Workspace, seen: seq<Path>): set<Path> {
    set p | p in w.members && p !in seen
  }

  /** Depth-first preorder: what is listed already, then the file, then all that
      its includes lead to in source order. A file listed already adds nothing. */
  function Preorder(w: Workspace, seen: seq<Path>, p: Path): (order: seq<Path>)
    requires p in w.members
    ensures seen <= order
    decreases Unseen(w, seen), 0, 0
  {
    if p in seen then seen
    else
      assert p in Unseen(w, seen) && p !in Unseen(w, seen + [p]);
      Onward(w, seen + [p], p, 0)
  }

  /** The same from include `i` of a file on. */
  function Onward(w: Workspace, seen: seq<Path>, p: Path, i: nat): (order: seq<Path>)
    requires i <= |w.Edges(p)|
    ensures seen <= order
    decreases Unseen(w, seen), 1, |w.Edges(p)| - i
  {
    if i == |w.Edges(p)| then seen
    else
      match w.Target(w.Edges(p)[i])
      case None => Onward(w, seen, p, i + 1)
      case Some(q) =>
        var next := Preorder(w, seen, q);
        assert forall x :: x in seen ==> x in next;
        assert Unseen(w, next) <= Unseen(w, seen);
        Onward(w, next, p, i + 1)
  }

  /** The entries of the first `n` packages, one after the other. */
  function EntryOrder(w: Workspace, n: nat): seq<Path>
    requires n <= |w.packages|
  {
    if n == 0 then []
    else
      var before := EntryOrder(w, n - 1);
      if w.Seeded(w.packages[n - 1]) then Preorder(w, before, w.packages[n - 1].entry.value) else before
  }

  /** Depth-first postorder: the files a visit to `p` finishes, when those in `seen`
      were visited before it. A file visited already finishes nothing. */
  function Finishing(w: Workspace, seen: seq<Path>, p: Path): seq<Path>
    requires p in w.members
    decreases Unseen(w, seen), 0, 0
  {
    if p in seen then []
    else
      assert p in Unseen(w, seen) && p !in Unseen(w, seen + [p]);
      FinishingOnward(w, seen + [p], p, 0) + [p]
  }

  /** The same from include `i` of a file on, without the file itself. */
  function FinishingOnward(w: Workspace, seen: seq<Path>, p: Path, i: nat): seq<Path>
    requires i <= |w.Edges(p)|
    decreases Unseen(w, seen), 1, |w.Edges(p)| - i
  {
    if i == |w.Edges(p)| then []
    else
      match w.Target(w.Edges(p)[i])
      case None => FinishingOnward(w, seen, p, i + 1)
      case Some(q) =>
        var next := Preorder(w, seen, q);
        assert forall x :: x in seen ==> x in next;
        assert Unseen(w, next) <= Unseen(w, seen);
        Finishing(w, seen, q) + FinishingOnward(w, next, p, i + 1)
  }

  /** What the entries of the first `n` packages finish, one after the other. */
  function FinishOrder(w: Workspace, n: nat): seq<Path>
    requires n <= |w.packages|
  {
    if n == 0 then []
    else if w.Seeded(w.packages[n - 1]) then
      FinishOrder(w, n - 1) + Finishing(w, EntryOrder(w, n - 1), w.packages[n - 1].entry.value)
    else FinishOrder(w, n - 1)
  }

  lemma ReachesStep(w: Workspace, p: Path, q: Path, i: nat, r: Path)
    requires Reaches(w, p, q) && w.Leads(q, i, r)
    ensures Reaches(w, p, r)
  {
    var t :| Origin(t) == p && End(w, t) == Some(q);
    var u := Step(t, i);
    assert Origin(u) == p && End(w, u) == Some(r);
  }

  // ---- What the walk records about one file ----

  /** The members file `p` includes through its first `k` includes, in order. */
  function Targets(w: Workspace, p: Path, k: nat): seq<Path>
    requires k <= |w.Edges(p)|
  {
    if k == 0 then []
    else
      match w.Target(w.Edges(p)[k - 1])
      case None => Targets(w, p, k - 1)
      case Some(q) => Targets(w, p, k - 1) + [q]
  }

  /** The includes among the first `k` that lead to no member, in order. */
  function Misses(w: Workspace, p: Path, k: nat): seq<UnresolvedInclude>
    requires k <= |w.Edges(p)|
  {
    if k == 0 then []
    else if w.Target(w.Edges(p)[k - 1]).None? then
      Misses(w, p, k - 1) + [UnresolvedInclude(p, w.Edges(p)[k - 1].path)]
    else Misses(w, p, k - 1)
  }

  lemma {:induction false} PositionInside(order: seq<Path>, p: Path)
    ensures IndexOf(order, p) < |order| <==> p in order
    ensures p in order ==> order[IndexOf(order, p)] == p
    decreases order
  {
    if order != [] && order[0] != p {
      PositionInside(order[1..], p);
    }
  }

  lemma {:induction false} PositionAppend(order: seq<Path>, x: Path, p: Path)
    ensures IndexOf(order + [x], p) ==
      if p in order then IndexOf(order, p) else if p == x then |order| else |order| + 1
    decreases order
  {
    if order == [] {
      assert [x][1..] == [];
    } else if order[0] != p {
      assert (order + [x])[1..] == order[1..] + [x];
      PositionAppend(order[1..], x, p);
    }
  }

  /** Whether `q` was finished before `p`. */
  predicate Before(order: seq<Path>, q: Path, p: Path) {
    IndexOf(order, q) < IndexOf(order, p)
  }

  /** The includes among the first `k` whose target is not finished before their
      source: the back edges of the walk. */
  function BackEdges(w: Workspace, order: seq<Path>, p: Path, k: nat): seq<CycleEdge>
    requires k <= |w.Edges(p)|
  {
    if k == 0 then []
    else
      var e := w.Edges(p)[k - 1];
      var rest := BackEdges(w, order, p, k - 1);
      if w.Target(e).Some? && !Before(order, w.Target(e).value, p) then
        rest + [CycleEdge(p, e.path, w.Target(e).value)]
      else rest
  }

  lemma {:induction false} BackEdgesStable(w: Workspace, order: seq<Path>, x: Path, p: Path, k: nat)
    requires k <= |w.Edges(p)|
    requires forall i, q :: 0 <= i < k && w.Leads(p, i, q) ==> Before(order + [x], q, p) == Before(order, q, p)
    ensures BackEdges(w, order + [x], p, k) == BackEdges(w, order, p, k)
    decreases k
  {
    if k > 0 {
      var e := w.Edges(p)[k - 1];
      if w.Target(e).Some? {
        assert w.Leads(p, k - 1, w.Target(e).value);
      }
      BackEdgesStable(w, order, x, p, k - 1);
    }
  }

  function CyclesFrom(cycles: seq<CycleEdge>, p: Path): seq<CycleEdge> {
    if cycles == [] then []
    else
      var last := cycles[|cycles| - 1];
      CyclesFrom(cycles[..|cycles| - 1], p) + (if last.from == p then [last] else [])
  }

  function MissesFrom(unresolved: seq<UnresolvedInclude>, p: Path): seq<UnresolvedInclude> {
    if unresolved == [] then []
    else
      var last := unresolved[|unresolved| - 1];
      MissesFrom(unresolved[..|unresolved| - 1], p) + (if last.from == p then [last] else [])
  }

  lemma CyclesFromAppend(cycles: seq<CycleEdge>, c: CycleEdge, p: Path)
    ensures CyclesFrom(cycles + [c], p) == CyclesFrom(cycles, p) + (if c.from == p then [c] else [])
  {
    assert (cycles + [c])[..|cycles|] == cycles;
  }

  lemma MissesFromAppend(unresolved: seq<UnresolvedInclude>, u: UnresolvedInclude, p: Path)
    ensures MissesFrom(unresolved + [u], p) == MissesFrom(unresolved, p) + (if u.from == p then [u] else [])
  {
    assert (unresolved + [u])[..|unresolved|] == unresolved;
  }

  /** A list in a multimap, empty when there is none. */
  function Listed(m: map<Path, seq<Path>>, p: Path): seq<Path> {
    if p in m then m[p] else []
  }

  function Pushed(m: map<Path, seq<Path>>, p: Path, q: Path): map<Path, seq<Path>> {
    m[p := Listed(m, p) + [q]]
  }
}
