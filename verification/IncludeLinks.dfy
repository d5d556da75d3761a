/** What a project graph records about single includes (src/incremental.rs), said
    in terms of the targets as written and of path normalization alone. */
module IncludeLinks {
  import opened Sequences
  import opened Wrappers
  import opened IncludeGraph
  import opened IncludeSteps
  import opened IncludeWalk

  /** Include `i` of `p` has a target that normalizes to the member `q`. */
  predicate Denotes(w: Workspace, p: Path, i: nat, q: Path) {
    && p in w.members && i < |w.members[p]| && w.members[p][i].target.Some?
    && w.normalize(w.members[p][i].target.value) == q && q in w.members
  }

  /** Include `i` of `p` has no target, or one that normalizes to no member. */
  predicate Dangles(w: Workspace, p: Path, i: nat) {
    && p in w.members && i < |w.members[p]|
    && (w.members[p][i].target == None || w.normalize(w.members[p][i].target.value) !in w.members)
  }

  /** Positions below `n` in rising order. */
  ghost predicate Rising(at: seq<nat>, n: nat) {
    && (forall j :: 0 <= j < |at| ==> at[j] < n)
    && forall j, k :: 0 <= j < k < |at| ==> at[j] < at[k]
  }

  /** The files are those the includes at the positions denote, one by one, and no
      other of the first `k` includes denotes a member. */
  ghost predicate DenotedAt(w: Workspace, p: Path, k: nat, at: seq<nat>, files: seq<Path>) {
    && Rising(at, k) && |at| == |files|
    && (forall j :: 0 <= j < |at| ==> Denotes(w, p, at[j], files[j]))
    && forall i: nat :: i < k && !Dangles(w, p, i) ==> i in at
  }

  /** The same for the includes that denote no member, reported with their path. */
  ghost predicate DanglingAt(w: Workspace, p: Path, k: nat, at: seq<nat>, reported: seq<UnresolvedInclude>) {
    && Rising(at, k) && |at| == |reported|
    && (forall j :: 0 <= j < |at| ==> Dangles(w, p, at[j]) && reported[j] == UnresolvedInclude(p, w.members[p][at[j]].path))
    && forall i: nat :: i < k && Dangles(w, p, i) ==> i in at
  }

  lemma DenotesIsLeads(w: Workspace, p: Path, i: nat, q: Path)
    ensures Denotes(w, p, i, q) <==> w.Leads(p, i, q)
  {
  }

  lemma RisingSnoc(at: seq<nat>, k: nat)
    requires Rising(at, k)
    ensures Rising(at, k + 1) && Rising(at + [k], k + 1)
  {
  }

  lemma KeptSnoc(at: seq<nat>, k: nat)
    ensures k in at + [k] && forall i :: i in at ==> i in at + [k]
  {
  }

  lemma DenotedStep(w: Workspace, p: Path, k: nat, at: seq<nat>, files: seq<Path>)
    requires DenotedAt(w, p, k, at, files)
    ensures Dangles(w, p, k) ==> DenotedAt(w, p, k + 1, at, files)
    ensures forall q :: Denotes(w, p, k, q) ==> DenotedAt(w, p, k + 1, at + [k], files + [q])
  {
    RisingSnoc(at, k);
    KeptSnoc(at, k);
    hide Denotes, Dangles, Rising;
  }

  lemma DanglingStep(w: Workspace, p: Path, k: nat, at: seq<nat>, reported: seq<UnresolvedInclude>)
    requires DanglingAt(w, p, k, at, reported)
    ensures !Dangles(w, p, k) ==> DanglingAt(w, p, k + 1, at, reported)
    ensures Dangles(w, p, k) ==>
      p in w.members && k < |w.members[p]|
      && DanglingAt(w, p, k + 1, at + [k], reported + [UnresolvedInclude(p, w.members[p][k].path)])
  {
    RisingSnoc(at, k);
    KeptSnoc(at, k);
    hide Rising;
  }

  lemma {:induction false} TargetsAreDenoted(w: Workspace, p: Path, k: nat) returns (at: seq<nat>)
    requires k <= |w.Edges(p)|
    ensures DenotedAt(w, p, k, at, Targets(w, p, k))
    decreases k
  {
    hide DenotedAt;
    if k == 0 {
      at := [];
      NothingYet(w, p);
    } else {
      var before := TargetsAreDenoted(w, p, k - 1);
      DenotedStep(w, p, k - 1, before, Targets(w, p, k - 1));
      if w.Target(w.Edges(p)[k - 1]).None? {
        at := before;
        assert Dangles(w, p, k - 1);
      } else {
        at := before + [k - 1];
        assert Denotes(w, p, k - 1, w.Target(w.Edges(p)[k - 1]).value);
      }
    }
  }

  lemma NothingYet(w: Workspace, p: Path)
    ensures DenotedAt(w, p, 0, [], []) && DanglingAt(w, p, 0, [], [])
  {
  }

  lemma {:induction false} MissesDangle(w: Workspace, p: Path, k: nat) returns (at: seq<nat>)
    requires k <= |w.Edges(p)|
    ensures DanglingAt(w, p, k, at, Misses(w, p, k))
    decreases k
  {
    hide DanglingAt;
    if k == 0 {
      at := [];
      NothingYet(w, p);
    } else {
      var before := MissesDangle(w, p, k - 1);
      DanglingStep(w, p, k - 1, before, Misses(w, p, k - 1));
      if w.Target(w.Edges(p)[k - 1]).None? {
        at := before + [k - 1];
        assert Dangles(w, p, k - 1);
      } else {
        at := before;
        assert !Dangles(w, p, k - 1);
      }
    }
  }

  /** The entries of one file stand in the list at the positions given. */
  ghost predicate EntriesAt(unresolved: seq<UnresolvedInclude>, p: Path, at: seq<nat>, reported: seq<UnresolvedInclude>) {
    && Rising(at, |unresolved|) && |at| == |reported|
    && (forall j :: 0 <= j < |at| ==> unresolved[at[j]] == reported[j] && reported[j].from == p)
    && forall i :: 0 <= i < |unresolved| && unresolved[i].from == p ==> i in at
  }

  lemma {:induction false} MissesFromAreEntries(unresolved: seq<UnresolvedInclude>, p: Path) returns (at: seq<nat>)
    ensures EntriesAt(unresolved, p, at, MissesFrom(unresolved, p))
    decreases |unresolved|
  {
    if unresolved == [] {
      at := [];
    } else {
      var n := |unresolved| - 1;
      at := MissesFromAreEntries(unresolved[..n], p);
      var before := at;
      if unresolved[n].from == p {
        at := at + [n];
      }
      assert forall i :: i in before ==> i in at;
    }
  }

  /** The files recorded after `p` are those its includes denote, in source order. */
  lemma LinksAreIncludes(w: Workspace, g: Graph, p: Path) returns (at: seq<nat>)
    requires IsProjectGraph(w, g) && p in g.nodes
    ensures p in w.members && DenotedAt(w, p, |w.members[p]|, at, if p in g.forward then g.forward[p] else [])
  {
    NodeLinks(w, g, p);
    hide IsProjectGraph;
    at := TargetsAreDenoted(w, p, |w.Edges(p)|);
  }

  /** The unresolved includes recorded for `p` are those that denote no member, in
      source order, with the path as written. */
  lemma MissesAreIncludes(w: Workspace, g: Graph, p: Path) returns (at: seq<nat>, entries: seq<nat>, reported: seq<UnresolvedInclude>)
    requires IsProjectGraph(w, g) && p in g.nodes
    ensures p in w.members && DanglingAt(w, p, |w.members[p]|, at, reported)
    ensures EntriesAt(g.unresolved, p, entries, reported)
  {
    NodeLinks(w, g, p);
    hide IsProjectGraph;
    at := MissesDangle(w, p, |w.Edges(p)|);
    entries := MissesFromAreEntries(g.unresolved, p);
    reported := MissesFrom(g.unresolved, p);
  }

  lemma NodeLinks(w: Workspace, g: Graph, p: Path)
    requires IsProjectGraph(w, g) && p in g.nodes
    ensures p in w.members && LinksOf(w, p, |w.Edges(p)|, g.forward, g.unresolved)
  {
    hide NodesInOrder, HostsFollowIncludes, Transposed, TrueCycles, CyclesAreBackEdges, AcyclicWithoutReported, Distinct, LinksOf;
    assert Reached(w, p);
  }

  /** An include of a node that denotes a member makes that member a node, and links
      the two both ways, equally often. */
  lemma IncludeIsLinked(w: Workspace, g: Graph, p: Path, i: nat, q: Path)
    requires IsProjectGraph(w, g) && p in g.nodes && Denotes(w, p, i, q)
    ensures q in g.nodes && p in g.forward && q in g.forward[p] && q in g.reverse && p in g.reverse[q]
    ensures multiset(g.forward[p])[q] == multiset(g.reverse[q])[p]
  {
    hide IsProjectGraph, Rising;
    DenotesIsLeads(w, p, i, q);
    NodeReaches(w, g, p, i, q);
    var at := LinksAreIncludes(w, g, p);
    assert i in at;
    var j :| 0 <= j < |at| && at[j] == i;
    assert Denotes(w, p, at[j], g.forward[p][j]);
    BothWays(w, g, p, q);
  }

  lemma NodeReaches(w: Workspace, g: Graph, p: Path, i: nat, q: Path)
    requires IsProjectGraph(w, g) && p in g.nodes && w.Leads(p, i, q)
    ensures q in g.nodes
  {
    hide NodesInOrder, HostsFollowIncludes, IncludesRecorded, Transposed, TrueCycles, CyclesAreBackEdges, AcyclicWithoutReported,
      Distinct;
    ReachedFurther(w, p, i, q);
  }

  lemma BothWays(w: Workspace, g: Graph, p: Path, q: Path)
    requires IsProjectGraph(w, g)
    ensures multiset(Listed(g.forward, p))[q] == multiset(Listed(g.reverse, q))[p]
  {
    hide NodesAreReached, NodesInOrder, HostsFollowIncludes, IncludesRecorded, TrueCycles, CyclesAreBackEdges,
      AcyclicWithoutReported;
  }

  /** Some include of `p` with this path denotes no member. */
  ghost predicate DanglesAs(w: Workspace, p: Path, path: string) {
    exists i: nat :: Dangles(w, p, i) && w.members[p][i].path == path
  }

  /** An include of a node that denotes no member is reported, once for each such
      include, and nothing else is; only nodes have links and reports. */
  lemma ReportsAreMisses(w: Workspace, g: Graph, u: UnresolvedInclude)
    requires IsProjectGraph(w, g)
    ensures u in g.unresolved <==>
      u.from in g.nodes && DanglesAs(w, u.from, u.path)
    ensures u.from in g.forward ==> u.from in g.nodes
  {
    hide IsProjectGraph, DanglesAs, DanglingAt, EntriesAt;
    var p := u.from;
    if p in g.nodes {
      var at, entries, reported := MissesAreIncludes(w, g, p);
      SameEntries(w, g.unresolved, u, at, entries, reported);
    } else {
      OutsideIsEmpty(w, g, p);
      var entries := MissesFromAreEntries(g.unresolved, p);
    }
  }

  lemma EntryDangles(w: Workspace, unresolved: seq<UnresolvedInclude>, u: UnresolvedInclude,
                     at: seq<nat>, entries: seq<nat>, reported: seq<UnresolvedInclude>)
    requires u.from in w.members && DanglingAt(w, u.from, |w.members[u.from]|, at, reported)
    requires EntriesAt(unresolved, u.from, entries, reported) && u in unresolved
    ensures DanglesAs(w, u.from, u.path)
  {
    hide Rising;
    var m :| 0 <= m < |unresolved| && unresolved[m] == u;
    var j :| 0 <= j < |entries| && entries[j] == m;
    assert reported[j] == u && Dangles(w, u.from, at[j]);
  }

  lemma DanglingIsEntry(w: Workspace, unresolved: seq<UnresolvedInclude>, u: UnresolvedInclude,
                        at: seq<nat>, entries: seq<nat>, reported: seq<UnresolvedInclude>)
    requires u.from in w.members && DanglingAt(w, u.from, |w.members[u.from]|, at, reported)
    requires EntriesAt(unresolved, u.from, entries, reported) && DanglesAs(w, u.from, u.path)
    ensures u in unresolved
  {
    var i: nat :| Dangles(w, u.from, i) && w.members[u.from][i].path == u.path;
    hide Dangles;
    var j :| 0 <= j < |at| && at[j] == i;
    assert reported[j] == u && unresolved[entries[j]] == u;
  }

  lemma SameEntries(w: Workspace, unresolved: seq<UnresolvedInclude>, u: UnresolvedInclude,
                    at: seq<nat>, entries: seq<nat>, reported: seq<UnresolvedInclude>)
    requires u.from in w.members && DanglingAt(w, u.from, |w.members[u.from]|, at, reported)
    requires EntriesAt(unresolved, u.from, entries, reported)
    ensures u in unresolved <==> DanglesAs(w, u.from, u.path)
  {
    hide DanglingAt, EntriesAt, DanglesAs;
    if u in unresolved {
      EntryDangles(w, unresolved, u, at, entries, reported);
    }
    if DanglesAs(w, u.from, u.path) {
      DanglingIsEntry(w, unresolved, u, at, entries, reported);
    }
  }

  lemma OutsideIsEmpty(w: Workspace, g: Graph, p: Path)
    requires IsProjectGraph(w, g) && p !in g.nodes
    ensures p !in g.forward && MissesFrom(g.unresolved, p) == []
  {
    hide NodesAreReached, NodesInOrder, HostsFollowIncludes, TrueCycles, CyclesAreBackEdges, AcyclicWithoutReported, Transposed,
      LinksOf;
  }

  // ---- A package whose targets have to be normalized ----

  const ENTRY: Path := "src/P.jl"
  const PART: Path := "src/a.jl"

  /** Drops the detours of the two targets below; every other path is as it is. */
  function WithoutDetours(p: Path): Path {
    if p == "src/./a.jl" then PART else if p == "src/../src/P.jl" then ENTRY else p
  }

  /** Package `P`: the entry includes `a.jl` by a detour inside module `M`, and a
      file that is not there; `a.jl` includes the entry back, by a detour. */
  function DetourPackage(): Workspace {
    Workspace(
      map[ENTRY := [Edge("./a.jl", Some("src/./a.jl"), ["M"]), Edge("gone.jl", Some("src/gone.jl"), [])],
          PART := [Edge("../src/P.jl", Some("src/../src/P.jl"), [])]],
      [Package("P", Some(ENTRY))],
      WithoutDetours)
  }

  lemma DetourEdges()
    ensures var w := DetourPackage();
      && w.packages == [Package("P", Some(ENTRY))] && w.Seeded(w.packages[0])
      && w.members.Keys == {ENTRY, PART} && ENTRY != PART
      && |w.Edges(ENTRY)| == 2 && w.Edges(ENTRY)[0].suffix == ["M"] && w.Edges(ENTRY)[1].path == "gone.jl"
      && |w.Edges(PART)| == 1 && w.Edges(PART)[0].path == "../src/P.jl"
      && w.Target(w.Edges(ENTRY)[0]) == Some(PART) && w.Target(w.Edges(ENTRY)[1]) == None
      && w.Target(w.Edges(PART)[0]) == Some(ENTRY)
  {
    assert ENTRY[4] != PART[4];
    assert "src/./a.jl"[4] == '.' && "src/../src/P.jl"[4] == '.' && |"src/./a.jl"| != |"src/../src/P.jl"|;
    assert "src/gone.jl"[4] == 'g';
  }

  lemma DetourOrder()
    ensures var w := DetourPackage(); EntryOrder(w, 1) == [ENTRY, PART] && FinishOrder(w, 1) == [PART, ENTRY]
  {
    DetourEdges();
    var w := DetourPackage();
    hide DetourPackage;
    var both := [ENTRY, PART];
    assert [ENTRY] + [PART] == both && [] + [ENTRY] == [ENTRY];
    assert Onward(w, both, PART, 1) == both && FinishingOnward(w, both, PART, 1) == [];
    assert Preorder(w, both, ENTRY) == both && Finishing(w, both, ENTRY) == [];
    assert Onward(w, both, PART, 0) == both && FinishingOnward(w, both, PART, 0) == [];
    assert Preorder(w, [ENTRY], PART) == both && Finishing(w, [ENTRY], PART) == [PART];
    assert Onward(w, both, ENTRY, 2) == both && FinishingOnward(w, both, ENTRY, 2) == [];
    assert Onward(w, both, ENTRY, 1) == both && FinishingOnward(w, both, ENTRY, 1) == [];
    assert Onward(w, [ENTRY], ENTRY, 0) == both && FinishingOnward(w, [ENTRY], ENTRY, 0) == [PART];
    assert Preorder(w, [], ENTRY) == both && Finishing(w, [], ENTRY) == [PART] + [ENTRY];
    assert EntryOrder(w, 0) == [] && FinishOrder(w, 0) == [];
  }

  lemma TwoRecorded(w: Workspace, g: Graph, p: Path, q: Path)
    requires IncludesRecorded(w, g) && g.nodes == [p, q]
    ensures LinksOf(w, p, |w.Edges(p)|, g.forward, g.unresolved) && LinksOf(w, q, |w.Edges(q)|, g.forward, g.unresolved)
    ensures forall x :: x != p && x != q ==> x !in g.forward && MissesFrom(g.unresolved, x) == []
  {
    hide LinksOf, MissesFrom;
    assert p in g.nodes && q in g.nodes;
  }

  lemma TwoKeys(m: map<Path, seq<Path>>, p: Path, q: Path)
    requires Listed(m, p) != [] && Listed(m, q) != [] && p != q && forall x :: x in m ==> x == p || x == q
    ensures m == map[p := Listed(m, p), q := Listed(m, q)]
  {
    assert m.Keys == {p, q};
  }

  lemma DetourLinks(g: Graph)
    requires IncludesRecorded(DetourPackage(), g) && g.nodes == [ENTRY, PART]
    ensures g.forward == map[ENTRY := [PART], PART := [ENTRY]]
    ensures MissesFrom(g.unresolved, ENTRY) == [UnresolvedInclude(ENTRY, "gone.jl")]
    ensures forall p :: p != ENTRY ==> MissesFrom(g.unresolved, p) == []
  {
    DetourTargets();
    DetourEdges();
    hide DetourPackage, MissesFrom, Targets, Misses, IncludesRecorded, Listed;
    TwoRecorded(DetourPackage(), g, ENTRY, PART);
    TwoKeys(g.forward, ENTRY, PART);
  }

  lemma DetourTargets()
    ensures var w := DetourPackage();
      && |w.Edges(ENTRY)| == 2 && |w.Edges(PART)| == 1
      && Targets(w, ENTRY, 2) == [PART] && Targets(w, PART, 1) == [ENTRY]
      && Misses(w, ENTRY, 2) == [UnresolvedInclude(ENTRY, "gone.jl")] && Misses(w, PART, 1) == []
  {
    DetourEdges();
    var w := DetourPackage();
    hide DetourPackage;
    assert Targets(w, ENTRY, 1) == [PART] && Misses(w, ENTRY, 1) == [];
  }

  lemma PositionsOfTwo(p: Path, q: Path)
    requires p != q
    ensures IndexOf([p, q], p) == 0 && IndexOf([p, q], q) == 1
  {
    assert [p, q][1..] == [q];
  }

  lemma DetourBackEdges()
    ensures var w := DetourPackage();
      && |w.Edges(ENTRY)| == 2 && |w.Edges(PART)| == 1
      && BackEdges(w, [PART, ENTRY], ENTRY, 2) == []
      && BackEdges(w, [PART, ENTRY], PART, 1) == [CycleEdge(PART, "../src/P.jl", ENTRY)]
  {
    DetourEdges();
    var w := DetourPackage();
    hide DetourPackage, IndexOf;
    PositionsOfTwo(PART, ENTRY);
    assert BackEdges(w, [PART, ENTRY], ENTRY, 0) == [] && BackEdges(w, [PART, ENTRY], PART, 0) == [];
    assert BackEdges(w, [PART, ENTRY], ENTRY, 1) == [];
  }

  lemma DetourCycles(g: Graph)
    requires CyclesAreBackEdges(DetourPackage(), g)
    ensures CyclesFrom(g.cycles, PART) == [CycleEdge(PART, "../src/P.jl", ENTRY)]
    ensures forall p :: p != PART ==> CyclesFrom(g.cycles, p) == []
  {
    DetourEdges();
    DetourOrder();
    var w := DetourPackage();
    hide DetourPackage, CyclesFrom, FinishOrder;
    var order := FinishOrder(w, 1);
    assert order == [PART, ENTRY];
    assert ENTRY in order && PART in order;
    PositionsOfTwo(PART, ENTRY);
    hide IndexOf;
    assert CyclesOf(w, ENTRY, 2, g.cycles, order) && CyclesOf(w, PART, 1, g.cycles, order);
    DetourBackEdges();
    forall p | p != PART && p != ENTRY
      ensures CyclesFrom(g.cycles, p) == []
    {
      NoneFrom(w, g, p);
    }
  }

  /** The first node is in the root module. */
  lemma FirstInherits(w: Workspace, nodes: seq<Path>, hosts: map<Path, seq<string>>, owner: map<Path, nat>)
    requires nodes != [] && Inherits(w, nodes, hosts, owner, 0)
    ensures nodes[0] in hosts && hosts[nodes[0]] == [] && nodes[0] in owner && owner[nodes[0]] < |w.packages|
  {
    hide FirstSeeded, ReachedAlong, InheritsFrom, Includes;
  }

  lemma DetourPartHost(hosts: map<Path, seq<string>>, owner: map<Path, nat>)
    requires Inherits(DetourPackage(), [ENTRY, PART], hosts, owner, 1) && ENTRY in hosts && hosts[ENTRY] == []
    ensures PART in hosts && hosts[PART] == ["M"]
  {
    DetourEdges();
    var w := DetourPackage();
    hide DetourPackage, ReachedAlong, Includes;
    assert [] + ["M"] == ["M"];
    if FirstSeeded(w, owner[PART], PART) {
      assert false;
    }
    var i, e: nat :| 0 <= i < 1 && InheritsFrom(w, [ENTRY, PART][i], PART, e, hosts, owner) && ReachedAlong(w, [ENTRY, PART], i, e, 1);
    assert e == 0;
  }

  lemma DetourHosts(g: Graph)
    requires HostsFollowIncludes(DetourPackage(), g) && g.nodes == [ENTRY, PART]
    ensures g.hosts == map[ENTRY := [], PART := ["M"]]
  {
    var w := DetourPackage();
    hide DetourPackage, MetBy, Inherits;
    var owner :| Inherited(w, g.nodes, g.hosts, owner);
    assert Inherits(w, g.nodes, g.hosts, owner, 0) && Inherits(w, g.nodes, g.hosts, owner, 1);
    FirstInherits(w, g.nodes, g.hosts, owner);
    DetourPartHost(g.hosts, owner);
    assert ENTRY in g.nodes && PART in g.nodes;
    hide Inherited;
    assert g.hosts.Keys == {ENTRY, PART};
  }

  lemma {:induction false} OneFileMisses(unresolved: seq<UnresolvedInclude>, p: Path)
    requires forall q :: q != p ==> MissesFrom(unresolved, q) == []
    ensures MissesFrom(unresolved, p) == unresolved
    decreases |unresolved|
  {
    if unresolved != [] {
      var n := |unresolved| - 1;
      assert unresolved[n].from != p ==> MissesFrom(unresolved, unresolved[n].from) == [];
      forall q | q != p
        ensures MissesFrom(unresolved[..n], q) == []
      {
        assert MissesFrom(unresolved, q) == [];
      }
      OneFileMisses(unresolved[..n], p);
    }
  }

  lemma {:induction false} OneFileCycles(cycles: seq<CycleEdge>, p: Path)
    requires forall q :: q != p ==> CyclesFrom(cycles, q) == []
    ensures CyclesFrom(cycles, p) == cycles
    decreases |cycles|
  {
    if cycles != [] {
      var n := |cycles| - 1;
      assert cycles[n].from != p ==> CyclesFrom(cycles, cycles[n].from) == [];
      forall q | q != p
        ensures CyclesFrom(cycles[..n], q) == []
      {
        assert CyclesFrom(cycles, q) == [];
      }
      OneFileCycles(cycles[..n], p);
    }
  }

  /** Both files are nodes, linked both ways; only the file that is not there is
      unresolved; and only the include that leads back is a cycle. */
  lemma DetourGraph(g: Graph)
    requires IsProjectGraph(DetourPackage(), g)
    ensures g.nodes == [ENTRY, PART] && g.hosts == map[ENTRY := [], PART := ["M"]]
    ensures g.forward == map[ENTRY := [PART], PART := [ENTRY]]
    ensures g.unresolved == [UnresolvedInclude(ENTRY, "gone.jl")]
    ensures g.cycles == [CycleEdge(PART, "../src/P.jl", ENTRY)]
  {
    DetourOrder();
    DetourEdges();
    hide DetourPackage, NodesAreReached, HostsFollowIncludes, IncludesRecorded, Transposed, TrueCycles, CyclesAreBackEdges,
      AcyclicWithoutReported, EntryOrder, FinishOrder;
    DetourLinks(g);
    DetourCycles(g);
    DetourHosts(g);
    OneFileMisses(g.unresolved, ENTRY);
    OneFileCycles(g.cycles, PART);
  }
}
