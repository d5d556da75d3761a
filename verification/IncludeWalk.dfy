/** The depth-first walk over the include graph (src/incremental.rs), and what the
    finished graph says about the workspace. */
module IncludeWalk {
  import opened Sequences
  import opened Wrappers
  import opened IncludeGraph
  import opened IncludeSteps

  // ---- What a project graph must be ----

  /** The nodes are, without repetition, the members reached from seeded entries. */
  ghost predicate NodesAreReached(w: Workspace, g: Graph) {
    Distinct(g.nodes) && forall p :: p in g.nodes <==> Reached(w, p)
  }

  /** Each node has one host module, handed down along includes from an entry; and a
      node is an entry or inherits along the include that first reaches it. */
  ghost predicate HostsFollowIncludes(w: Workspace, g: Graph) {
    && (forall p :: p in g.hosts <==> p in g.nodes)
    && (forall p :: p in g.hosts ==> exists k, t :: MetBy(w, p, k, t, g.hosts[p]))
    && exists owner :: Inherited(w, g.nodes, g.hosts, owner)
  }

  /** Every include of every node is recorded in source order, as an edge or as
      unresolved, and nothing else is. */
  ghost predicate IncludesRecorded(w: Workspace, g: Graph) {
    && (forall p :: p in g.nodes ==> LinksOf(w, p, |w.Edges(p)|, g.forward, g.unresolved))
    && (forall p :: p !in g.nodes ==> p !in g.forward && MissesFrom(g.unresolved, p) == [])
    && (forall p :: p in g.forward ==> g.forward[p] != [])
  }

  /** A trail none of whose includes is reported as closing a cycle. */
  ghost predicate Unreported(w: Workspace, cycles: seq<CycleEdge>, t: Trail) {
    match t
    case Start(_) => true
    case Step(prev, edge) =>
      && Unreported(w, cycles, prev)
      && (End(w, prev).Some? && End(w, t).Some? ==>
            CycleEdge(End(w, prev).value, w.Edges(End(w, prev).value)[edge].path, End(w, t).value) !in cycles)
  }

  /** Dropping the reported edges leaves no cycle among the nodes. */
  ghost predicate AcyclicWithoutReported(w: Workspace, g: Graph) {
    forall t: Trail :: t.Step? && Origin(t) in g.nodes && Unreported(w, g.cycles, t) ==> End(w, t) != Some(Origin(t))
  }

  /** The reported edges are the back edges of the depth-first postorder: for each
      file, in source order, its includes that lead to a file finished no earlier
      than itself. */
  ghost predicate CyclesAreBackEdges(w: Workspace, g: Graph) {
    var order := FinishOrder(w, |w.packages|);
    && (forall c :: c in g.cycles ==> c.from in g.nodes)
    && Distinct(order) && (forall p :: p in order <==> p in g.nodes)
    && forall p :: p in order ==> CyclesOf(w, p, |w.Edges(p)|, g.cycles, order)
  }

  /** The nodes stand in depth-first preorder from the entries in package order. */
  ghost predicate NodesInOrder(w: Workspace, g: Graph) {
    g.nodes == EntryOrder(w, |w.packages|)
  }

  ghost predicate IsProjectGraph(w: Workspace, g: Graph) {
    && NodesAreReached(w, g)
    && NodesInOrder(w, g)
    && HostsFollowIncludes(w, g)
    && IncludesRecorded(w, g)
    && Transposed(g.forward, g.reverse)
    && TrueCycles(w, g.cycles)
    && CyclesAreBackEdges(w, g)
    && AcyclicWithoutReported(w, g)
  }

  // ---- From the invariant to the graph ----

  /** The walk is over: nothing is being walked, and every seeded entry was met. */
  ghost predicate Complete(w: Workspace, s: State) {
    && Inv(w, s, false) && s.stack == [] && NodesInOrder(w, s.graph)
    && s.finished == FinishOrder(w, |w.packages|)
    && forall k :: 0 <= k < |w.packages| && w.Seeded(w.packages[k]) ==> w.packages[k].entry.value in s.color
  }

  lemma AllFinished(w: Workspace, s: State)
    requires Complete(w, s)
    ensures forall p :: p in s.color <==> p in s.finished
    ensures forall p :: p in s.graph.nodes <==> p in s.finished
    ensures forall p :: p in s.finished ==>
      && p in s.done && p in s.linked && p in s.graph.hosts && p in s.trail && p in s.owner
      && s.done[p] == s.linked[p] == |w.Edges(p)|
    ensures forall p :: p in s.graph.hosts || p in s.linked || p in s.done ==> p in s.finished
    ensures Distinct(s.graph.nodes)
  {
    hide Recorded, CyclesRecorded, Settled, Transposed, Hosted, Inherited, TrueCycles, Nested, Chained;
    forall p | p in s.color
      ensures p in s.finished
    {
      assert s.color[p] == Gray ==> p in s.stack;
    }
  }

  lemma EveryoneMet(w: Workspace, s: State, p: Path)
    requires Complete(w, s) && p in s.finished
    ensures p in s.owner && p in s.trail && p in s.graph.hosts
    ensures MetBy(w, p, s.owner[p], s.trail[p], s.graph.hosts[p])
  {
    AllFinished(w, s);
    hide Keyed, Ordered, Counted, Recorded, CyclesRecorded, Settled, Transposed, Inherited, TrueCycles, Nested, Chained, MetBy;
  }

  lemma ClosedUnderIncludes(w: Workspace, s: State, p: Path, i: nat, q: Path)
    requires Complete(w, s) && p in s.finished && w.Leads(p, i, q)
    ensures q in s.finished
  {
    AllFinished(w, s);
    hide Keyed, Ordered, Counted, Recorded, CyclesRecorded, Transposed, Hosted, Inherited, TrueCycles, Nested, Chained;
    assert DealtWith(p, q, s.stack, s.finished);
  }

  lemma {:induction false} TrailsStayInside(w: Workspace, s: State, t: Trail)
    requires Complete(w, s) && Origin(t) in s.finished && End(w, t).Some?
    ensures End(w, t).value in s.finished
    decreases t
  {
    hide Complete;
    if t.Step? {
      TrailsStayInside(w, s, t.prev);
      ClosedUnderIncludes(w, s, End(w, t.prev).value, t.edge, End(w, t).value);
    }
  }

  lemma SeedsFinished(w: Workspace, s: State, k: nat)
    requires Complete(w, s) && k < |w.packages| && w.Seeded(w.packages[k])
    ensures w.packages[k].entry.value in s.finished
  {
    AllFinished(w, s);
    hide Inv;
  }

  lemma NodesReached(w: Workspace, s: State)
    requires Complete(w, s)
    ensures NodesAreReached(w, s.graph)
  {
    hide Complete;
    AllFinished(w, s);
    forall p
      ensures p in s.graph.nodes <==> Reached(w, p)
    {
      if p in s.graph.nodes {
        EveryoneMet(w, s, p);
      }
      if Reached(w, p) {
        var k, t :| 0 <= k < |w.packages| && w.Seeded(w.packages[k])
          && Origin(t) == w.packages[k].entry.value && End(w, t) == Some(p);
        SeedsFinished(w, s, k);
        TrailsStayInside(w, s, t);
      }
    }
  }

  lemma InheritanceKept(w: Workspace, s: State)
    requires Complete(w, s)
    ensures Inherited(w, s.graph.nodes, s.graph.hosts, s.owner)
  {
    hide Keyed, Ordered, Counted, Recorded, CyclesRecorded, Settled, Transposed, Hosted, Inherited, TrueCycles, Nested, Chained;
  }

  lemma HostsFollow(w: Workspace, s: State)
    requires Complete(w, s)
    ensures HostsFollowIncludes(w, s.graph)
  {
    hide Complete, MetBy, Inherited;
    AllFinished(w, s);
    InheritanceKept(w, s);
    forall p | p in s.graph.hosts
      ensures exists k, t :: MetBy(w, p, k, t, s.graph.hosts[p])
    {
      EveryoneMet(w, s, p);
    }
  }

  lemma RecordsKept(w: Workspace, s: State)
    requires Complete(w, s)
    ensures Recorded(w, s.graph.forward, s.graph.unresolved, s.linked)
  {
    hide Keyed, Ordered, Counted, Recorded, CyclesRecorded, Settled, Transposed, Hosted, Inherited, TrueCycles, Nested, Chained;
  }

  lemma AllRecorded(w: Workspace, s: State)
    requires Complete(w, s)
    ensures IncludesRecorded(w, s.graph)
  {
    hide Complete, LinksOf, MissesFrom;
    AllFinished(w, s);
    RecordsKept(w, s);
    forall p | p in s.graph.nodes
      ensures LinksOf(w, p, |w.Edges(p)|, s.graph.forward, s.graph.unresolved)
    {
      assert LinksOf(w, p, s.linked[p], s.graph.forward, s.graph.unresolved);
    }
  }

  lemma CyclesKnown(w: Workspace, s: State)
    requires Complete(w, s)
    ensures forall p :: p in s.finished ==> CyclesOf(w, p, |w.Edges(p)|, s.graph.cycles, s.finished)
    ensures forall p :: p !in s.finished ==> CyclesFrom(s.graph.cycles, p) == []
    ensures Transposed(s.graph.forward, s.graph.reverse) && TrueCycles(w, s.graph.cycles)
  {
    AllFinished(w, s);
    hide Keyed, Ordered, Counted, Recorded, Settled, Transposed, Hosted, Inherited, TrueCycles, Nested, Chained, CyclesOf;
    forall p | p in s.finished
      ensures CyclesOf(w, p, |w.Edges(p)|, s.graph.cycles, s.finished)
    {
      assert CyclesOf(w, p, s.done[p], s.graph.cycles, s.finished);
    }
  }

  lemma {:induction false} BackEdgeListed(w: Workspace, order: seq<Path>, p: Path, k: nat, i: nat, q: Path)
    requires i < k <= |w.Edges(p)| && w.Leads(p, i, q) && !Before(order, q, p)
    ensures CycleEdge(p, w.Edges(p)[i].path, q) in BackEdges(w, order, p, k)
    decreases k
  {
    if i < k - 1 {
      BackEdgeListed(w, order, p, k - 1, i, q);
    }
  }

  lemma {:induction false} CyclesFromListed(cycles: seq<CycleEdge>, c: CycleEdge)
    ensures c in CyclesFrom(cycles, c.from) <==> c in cycles
    decreases |cycles|
  {
    if cycles != [] {
      var rest := cycles[..|cycles| - 1];
      CyclesFromListed(rest, c);
      assert cycles == rest + [cycles[|cycles| - 1]];
    }
  }

  /** An include that is not reported leads to a file finished earlier. */
  lemma UnreportedDescends(w: Workspace, s: State, p: Path, i: nat, q: Path)
    requires Complete(w, s) && p in s.finished && w.Leads(p, i, q)
    requires CycleEdge(p, w.Edges(p)[i].path, q) !in s.graph.cycles
    ensures Before(s.finished, q, p)
  {
    hide Complete;
    CyclesKnown(w, s);
    CyclesFromListed(s.graph.cycles, CycleEdge(p, w.Edges(p)[i].path, q));
    assert CyclesOf(w, p, |w.Edges(p)|, s.graph.cycles, s.finished);
    if !Before(s.finished, q, p) {
      BackEdgeListed(w, s.finished, p, |w.Edges(p)|, i, q);
    }
  }

  lemma {:induction false} UnreportedTrailDescends(w: Workspace, s: State, t: Trail)
    requires Complete(w, s) && Origin(t) in s.finished && End(w, t).Some?
    requires Unreported(w, s.graph.cycles, t)
    ensures var from, to := IndexOf(s.finished, Origin(t)), IndexOf(s.finished, End(w, t).value);
      to <= from && (t.Step? ==> to < from)
    decreases t
  {
    hide Complete, IndexOf;
    if t.Step? {
      UnreportedTrailDescends(w, s, t.prev);
      TrailsStayInside(w, s, t.prev);
      UnreportedDescends(w, s, End(w, t.prev).value, t.edge, End(w, t).value);
    }
  }

  lemma AcyclicRest(w: Workspace, s: State)
    requires Complete(w, s)
    ensures AcyclicWithoutReported(w, s.graph)
  {
    hide Complete, IndexOf;
    AllFinished(w, s);
    forall t: Trail | t.Step? && Origin(t) in s.graph.nodes && Unreported(w, s.graph.cycles, t)
      ensures End(w, t) != Some(Origin(t))
    {
      if End(w, t) == Some(Origin(t)) {
        UnreportedTrailDescends(w, s, t);
        assert false;
      }
    }
  }

  lemma BackEdgesReported(w: Workspace, s: State)
    requires Complete(w, s)
    ensures CyclesAreBackEdges(w, s.graph)
  {
    hide Complete, CyclesOf;
    AllFinished(w, s);
    CyclesKnown(w, s);
    forall c | c in s.graph.cycles
      ensures c.from in s.graph.nodes
    {
      CyclesFromListed(s.graph.cycles, c);
    }
    FinishedDistinct(w, s);
    assert s.finished == FinishOrder(w, |w.packages|) by {
      FinishedInOrder(w, s);
    }
  }

  lemma FinishedInOrder(w: Workspace, s: State)
    requires Complete(w, s)
    ensures s.finished == FinishOrder(w, |w.packages|)
  {
    hide Inv, FinishOrder;
  }

  lemma FinishedDistinct(w: Workspace, s: State)
    requires Complete(w, s)
    ensures Distinct(s.finished)
  {
    hide Keyed, Counted, Recorded, CyclesRecorded, Settled, Transposed, Hosted, Inherited, TrueCycles, Nested, Chained;
  }

  lemma OrderKept(w: Workspace, s: State)
    requires Complete(w, s)
    ensures NodesInOrder(w, s.graph)
  {
    hide Inv, NodesInOrder;
  }

  lemma CompleteIsProjectGraph(w: Workspace, s: State)
    requires Complete(w, s)
    ensures IsProjectGraph(w, s.graph)
  {
    OrderKept(w, s);
    hide Complete, NodesAreReached, NodesInOrder, HostsFollowIncludes, IncludesRecorded, Transposed, TrueCycles, CyclesAreBackEdges,
         AcyclicWithoutReported;
    BackEdgesReported(w, s);
    NodesReached(w, s);
    HostsFollow(w, s);
    AllRecorded(w, s);
    CyclesKnown(w, s);
    AcyclicRest(w, s);
  }

  // ---- What the reported cycles say ----

  lemma {:induction false} NoCyclesNothingReported(w: Workspace, t: Trail)
    ensures Unreported(w, [], t)
    decreases t
  {
    if t.Step? {
      NoCyclesNothingReported(w, t.prev);
    }
  }

  lemma ReachedFurther(w: Workspace, p: Path, i: nat, q: Path)
    requires Reached(w, p) && w.Leads(p, i, q)
    ensures Reached(w, q)
  {
    var k, t :| 0 <= k < |w.packages| && w.Seeded(w.packages[k])
      && Origin(t) == w.packages[k].entry.value && End(w, t) == Some(p);
    var u := Step(t, i);
    assert Origin(u) == w.packages[k].entry.value && End(w, u) == Some(q);
  }

  /** A workspace's graph reports no cycle exactly when no reached member includes
      itself, directly or through others; and whenever it reports an edge, that
      include leads back to a file that is reached and does include itself. */
  lemma ReportsExactlyWhenCyclic(w: Workspace, g: Graph)
    requires IsProjectGraph(w, g)
    ensures g.cycles == [] <==> forall p :: Reached(w, p) ==> !OnCycle(w, p)
    ensures forall c :: c in g.cycles ==> Reached(w, c.to) && OnCycle(w, c.to)
  {
    hide NodesInOrder, HostsFollowIncludes, IncludesRecorded, Transposed, CyclesOf;
    forall c | c in g.cycles
      ensures Reached(w, c.to) && OnCycle(w, c.to)
    {
      assert TrueCycle(w, c);
      var i: nat :| w.Leads(c.from, i, c.to) && w.Edges(c.from)[i].path == c.path;
      ReachedFurther(w, c.from, i, c.to);
      var t :| Origin(t) == c.to && End(w, t) == Some(c.from);
      var u := Step(t, i);
      assert u.Step? && Origin(u) == c.to && End(w, u) == Some(c.to);
    }
    if g.cycles == [] {
      forall p | Reached(w, p)
        ensures !OnCycle(w, p)
      {
        if t: Trail :| t.Step? && Origin(t) == p && End(w, t) == Some(p) {
          NoCyclesNothingReported(w, t);
        }
      }
    } else {
      assert g.cycles[0] in g.cycles;
    }
  }

  // ---- The walk ----

  /** What a nested walk leaves alone: the stack, and everything about the files
      that were already visited. */
  ghost predicate Untouched(before: State, after: State) {
    forall p :: p in before.color ==>
      && p in after.color && after.color[p] == before.color[p]
      && p in before.done && p in after.done && after.done[p] == before.done[p]
      && p in before.graph.hosts && p in after.graph.hosts && after.graph.hosts[p] == before.graph.hosts[p]
      && p in before.owner && p in after.owner && after.owner[p] == before.owner[p]
  }

  lemma KeysOf(w: Workspace, s: State, open: bool)
    requires Inv(w, s, open)
    ensures s.linked.Keys == s.done.Keys == s.graph.hosts.Keys == s.owner.Keys == s.color.Keys && s.color.Keys <= w.members.Keys
  {
    hide Ordered, Counted, Recorded, CyclesRecorded, Settled, Transposed, Hosted, Inherited, TrueCycles, Nested, Chained;
  }

  lemma OnStackOrFinished(w: Workspace, s: State, open: bool, p: Path)
    requires Inv(w, s, open) && p in s.color
    ensures s.color[p] == Gray ==> p in s.stack && p !in s.finished
    ensures s.color[p] == Black ==> p in s.finished
  {
    hide Keyed, Counted, Recorded, CyclesRecorded, Settled, Transposed, Hosted, Inherited, TrueCycles, Nested, Chained;
  }

  lemma ChildMet(w: Workspace, p: Path, k: nat, t: Trail, host: seq<string>, i: nat, q: Path)
    requires MetBy(w, p, k, t, host) && w.Leads(p, i, q)
    ensures MetBy(w, q, k, Step(t, i), ChildHost(host, w.Edges(p)[i].suffix, w.packages[k].name)) && q in w.members && k < |w.packages|
  {
    hide ChildHost;
  }

  /** The state in which a file may be entered: as a package entry, or because of
      the include its includer has just recorded. */
  ghost predicate Enterable(w: Workspace, s: State, p: Path, k: nat, t: Trail, host: seq<string>) {
    && Inv(w, s, s.stack != []) && p !in s.color && p in w.members
    && HandedDown(w, s, p, host, k)
    && MetBy(w, p, k, t, host)
  }

  /** The outcome of walking a file: it is finished and hosted, the stack is as
      before, and nothing about earlier files has changed. */
  ghost predicate Walked(w: Workspace, before: State, after: State, p: Path, host: seq<string>) {
    && Inv(w, after, before.stack != []) && after.stack == before.stack
    && p in after.finished && p in after.graph.hosts && after.graph.hosts[p] == host
    && Untouched(before, after)
  }

  /** The state between two includes of the file being walked; `Opened` is the one
      in which its include `i` is recorded and its target not yet dealt with. */
  ghost predicate At(w: Workspace, before: State, s: State, p: Path, host: seq<string>, k: nat, i: nat, open: bool) {
    && Inv(w, s, open) && s.stack == before.stack + [p]
    && p !in before.color && p in s.color && p in s.done && s.done[p] == i
    && p in s.graph.hosts && s.graph.hosts[p] == host && p in s.owner && s.owner[p] == k
    && Untouched(before, s)
  }

  ghost predicate Walking(w: Workspace, before: State, s: State, p: Path, host: seq<string>, k: nat, i: nat) {
    At(w, before, s, p, host, k, i, false)
  }

  ghost predicate Opened(w: Workspace, before: State, s: State, p: Path, host: seq<string>, k: nat, i: nat) {
    At(w, before, s, p, host, k, i, true)
  }

  lemma EnterStarts(w: Workspace, before: State, p: Path, host: seq<string>, t: Trail, k: nat)
    requires Enterable(w, before, p, k, t, host)
    ensures Walking(w, before, Enter(before, p, host, t, k), p, host, k, 0)
    ensures MetBy(w, p, k, t, host)
  {
    hide Inv, MetBy, HandedDown;
    EnterKeeps(w, before, p, host, t, k);
    KeysOf(w, before, before.stack != []);
  }

  lemma WalkingKeys(w: Workspace, before: State, s: State, p: Path, host: seq<string>, k: nat, i: nat)
    requires Walking(w, before, s, p, host, k, i)
    ensures p in s.linked && p in s.done && s.stack != [] && p !in before.color
    ensures i <= |w.Edges(p)| && s.color.Keys <= w.members.Keys
    ensures before.color.Keys < s.color.Keys && p in w.members
  {
    hide Inv, MetBy;
    KeysOf(w, s, false);
    DoneInside(w, s, false, p);
  }

  lemma DoneInside(w: Workspace, s: State, open: bool, p: Path)
    requires Inv(w, s, open) && p in s.done
    ensures s.done[p] <= |w.Edges(p)|
  {
    hide Keyed, Ordered, Counted, Recorded, Settled, Transposed, Hosted, Inherited, TrueCycles, Nested, Chained;
    assert CyclesOf(w, p, s.done[p], s.graph.cycles, s.finished);
  }

  lemma LeadsTo(w: Workspace, p: Path, i: nat)
    requires i < |w.Edges(p)| && w.Target(w.Edges(p)[i]).Some?
    ensures w.Leads(p, i, w.Target(w.Edges(p)[i]).value)
  {
  }

  lemma MissAdvances(w: Workspace, before: State, s: State, p: Path, host: seq<string>, k: nat, i: nat)
    requires Walking(w, before, s, p, host, k, i) && i < |w.Edges(p)| && w.Target(w.Edges(p)[i]).None? && p in s.linked
    ensures Walking(w, before, Miss(s, p, w.Edges(p)[i].path), p, host, k, i + 1)
  {
    hide Inv;
    MissKeeps(w, s, p);
  }

  lemma LinkOpens(w: Workspace, before: State, s: State, p: Path, host: seq<string>, k: nat, i: nat, q: Path)
    requires Walking(w, before, s, p, host, k, i) && w.Leads(p, i, q) && p in s.linked
    ensures Opened(w, before, Link(s, p, q), p, host, k, i) && p in Link(s, p, q).done
    ensures Link(s, p, q).color == s.color
  {
    hide Inv;
    LinkKeeps(w, s, p, q);
  }

  lemma CycleAdvances(w: Workspace, before: State, s: State, p: Path, host: seq<string>, k: nat, i: nat, q: Path)
    requires Opened(w, before, s, p, host, k, i) && w.Leads(p, i, q) && p in s.done
    requires q in s.color && s.color[q] == Gray
    ensures Walking(w, before, CloseCycle(s, p, w.Edges(p)[i].path, q), p, host, k, i + 1)
  {
    hide Inv;
    OnStackOrFinished(w, s, true, q);
    KeysOf(w, s, true);
    CloseCycleKeeps(w, s, p, q);
  }

  lemma ChildEnterable(w: Workspace, before: State, s: State, p: Path, host: seq<string>, k: nat, i: nat,
                       q: Path, t: Trail, childHost: seq<string>)
    requires Opened(w, before, s, p, host, k, i) && w.Leads(p, i, q) && q !in s.color && q in w.members
    requires MetBy(w, q, k, t, childHost) && k < |w.packages|
    requires childHost == ChildHost(host, w.Edges(p)[i].suffix, w.packages[k].name)
    ensures Enterable(w, s, q, k, t, childHost)
  {
    hide Inv, MetBy;
  }

  lemma ChildReturns(w: Workspace, before: State, s: State, after: State, p: Path, host: seq<string>, k: nat, i: nat,
                     q: Path, childHost: seq<string>)
    requires Opened(w, before, s, p, host, k, i) && Walked(w, s, after, q, childHost)
    ensures Opened(w, before, after, p, host, k, i) && q in after.finished && p in after.done
  {
    hide Inv;
    KeysOf(w, after, true);
  }

  lemma ChildFinished(w: Workspace, before: State, s: State, p: Path, host: seq<string>, k: nat, i: nat, q: Path)
    requires Opened(w, before, s, p, host, k, i) && q in s.color && s.color[q] != Gray
    ensures q in s.finished
  {
    hide Inv;
    OnStackOrFinished(w, s, true, q);
  }

  lemma CloseAdvances(w: Workspace, before: State, s: State, p: Path, host: seq<string>, k: nat, i: nat, q: Path)
    requires Opened(w, before, s, p, host, k, i) && w.Leads(p, i, q) && q in s.finished && p in s.done
    ensures Walking(w, before, Close(s, p), p, host, k, i + 1)
  {
    hide Inv;
    KeysOf(w, s, true);
    CloseKeeps(w, s, p, q);
  }

  lemma LeaveEnds(w: Workspace, before: State, s: State, p: Path, host: seq<string>, k: nat)
    requires Walking(w, before, s, p, host, k, |w.Edges(p)|) && s.stack != []
    ensures Walked(w, before, Leave(s, p), p, host)
  {
    hide Inv;
    LeaveKeeps(w, s, p);
    assert s.stack[..|s.stack| - 1] == before.stack;
  }

  // ---- The order of first visits ----

  lemma NewlyVisited(w: Workspace, before: State, p: Path, host: seq<string>, t: Trail, k: nat)
    requires Enterable(w, before, p, k, t, host)
    ensures p in w.members && Onward(w, before.graph.nodes + [p], p, 0) == Preorder(w, before.graph.nodes, p)
    ensures FinishingOnward(w, before.graph.nodes + [p], p, 0) + [p] == Finishing(w, before.graph.nodes, p)
  {
    ListedIsColored(w, before, before.stack != [], p);
    hide Inv, Onward, FinishingOnward;
  }

  lemma ListedIsColored(w: Workspace, s: State, open: bool, p: Path)
    requires Inv(w, s, open)
    ensures p in s.graph.nodes <==> p in s.color
  {
    hide Ordered, Counted, Recorded, CyclesRecorded, Settled, Transposed, Hosted, Inherited, TrueCycles, Nested, Chained;
  }

  lemma OnwardMiss(w: Workspace, seen: seq<Path>, p: Path, i: nat)
    requires i < |w.Edges(p)| && w.Target(w.Edges(p)[i]).None?
    ensures Onward(w, seen, p, i + 1) == Onward(w, seen, p, i)
    ensures FinishingOnward(w, seen, p, i + 1) == FinishingOnward(w, seen, p, i)
  {
  }

  lemma OnwardLink(w: Workspace, seen: seq<Path>, p: Path, i: nat, q: Path)
    requires w.Leads(p, i, q)
    ensures q in w.members && Onward(w, Preorder(w, seen, q), p, i + 1) == Onward(w, seen, p, i)
    ensures Finishing(w, seen, q) + FinishingOnward(w, Preorder(w, seen, q), p, i + 1) == FinishingOnward(w, seen, p, i)
  {
  }

  lemma OnwardEnds(w: Workspace, seen: seq<Path>, p: Path)
    ensures Onward(w, seen, p, |w.Edges(p)|) == seen && FinishingOnward(w, seen, p, |w.Edges(p)|) == []
  {
  }

  /** A visited target adds nothing to the order. */
  lemma VisitedIsListed(w: Workspace, before: State, s: State, p: Path, host: seq<string>, k: nat, i: nat, q: Path)
    requires Opened(w, before, s, p, host, k, i) && q in w.members
    ensures q in s.color ==> Preorder(w, s.graph.nodes, q) == s.graph.nodes && Finishing(w, s.graph.nodes, q) == []
  {
    ListedIsColored(w, s, true, q);
    hide Inv, Onward, FinishingOnward;
  }

  class IncludeWalk {
    const w: Workspace
    var color: map<Path, Color>
    var nodes: seq<Path>
    var forward: map<Path, seq<Path>>
    var reverse: map<Path, seq<Path>>
    var hosts: map<Path, seq<string>>
    var cycles: seq<CycleEdge>
    var unresolved: seq<UnresolvedInclude>
    ghost var linked: map<Path, nat>
    ghost var done: map<Path, nat>
    ghost var stack: seq<Path>
    ghost var finished: seq<Path>
    ghost var trail: map<Path, Trail>
    ghost var owner: map<Path, nat>

    constructor (w: Workspace)
      ensures this.w == w && Inv(w, View(), false) && View().stack == [] && View().color == map[] && nodes == [] && finished == []
    {
      this.w := w;
      color, nodes, forward, reverse, hosts, cycles, unresolved := map[], [], map[], map[], map[], [], [];
      linked, done, stack, finished, trail, owner := map[], map[], [], [], map[], map[];
    }

    function Result(): Graph
      reads this
    {
      Graph(nodes, forward, reverse, hosts, cycles, unresolved)
    }

    ghost function View(): State
      reads this
    {
      State(color, Result(), linked, done, stack, finished, trail, owner)
    }

    // The updates, one by one.

    method Begin(path: Path, host: seq<string>, ghost t: Trail, ghost k: nat)
      modifies this
      ensures View() == Enter(old(View()), path, host, t, k) && nodes == old(nodes) + [path] && finished == old(finished)
    {
      ghost var before := View();
      color, nodes, hosts := color[path := Gray], nodes + [path], hosts[path := host];
      ghost var marked := View();
      assert marked == before.(color := color, graph := before.graph.(nodes := nodes, hosts := hosts));
      Track(path, t, k);
    }

    ghost method Track(path: Path, t: Trail, k: nat)
      modifies this`linked, this`done, this`stack, this`trail, this`owner
      ensures View() == old(View()).(linked := old(linked)[path := 0], done := old(done)[path := 0],
                                     stack := old(stack) + [path], trail := old(trail)[path := t], owner := old(owner)[path := k])
    {
      linked, done, stack := linked[path := 0], done[path := 0], stack + [path];
      trail, owner := trail[path := t], owner[path := k];
    }

    method RecordMiss(path: Path, written: string)
      requires path in linked && path in done
      modifies this
      ensures View() == Miss(old(View()), path, written) && nodes == old(nodes) && finished == old(finished)
    {
      unresolved := unresolved + [UnresolvedInclude(path, written)];
      linked, done := linked[path := linked[path] + 1], done[path := done[path] + 1];
    }

    method RecordLink(path: Path, child: Path)
      requires path in linked
      modifies this
      ensures View() == Link(old(View()), path, child) && nodes == old(nodes) && finished == old(finished)
    {
      forward := Pushed(forward, path, child);
      reverse := Pushed(reverse, child, path);
      linked := linked[path := linked[path] + 1];
    }

    method RecordCycle(path: Path, written: string, child: Path)
      requires path in done
      modifies this
      ensures View() == CloseCycle(old(View()), path, written, child) && nodes == old(nodes) && finished == old(finished)
    {
      cycles := cycles + [CycleEdge(path, written, child)];
      done := done[path := done[path] + 1];
    }

    ghost method Advance(path: Path)
      requires path in done
      modifies this`done
      ensures View() == Close(old(View()), path)
    {
      done := done[path := done[path] + 1];
    }

    method Finish(path: Path)
      requires stack != []
      modifies this
      ensures View() == Leave(old(View()), path) && nodes == old(nodes) && finished == old(finished) + [path]
    {
      color := color[path := Black];
      stack, finished := stack[..|stack| - 1], finished + [path];
    }

    // The recursive walk.

    method Walk(path: Path, host: seq<string>, package: string, ghost k: nat, ghost t: Trail)
      requires Enterable(w, View(), path, k, t, host) && package == w.packages[k].name
      modifies this
      decreases w.members.Keys - color.Keys, 0
      ensures Walked(w, old(View()), View(), path, host)
      ensures path in w.members && nodes == Preorder(w, old(nodes), path)
      ensures finished == old(finished) + Finishing(w, old(nodes), path)
    {
      hide Inv, Walking, Walked, Enterable, Opened, Untouched, MetBy, Enter, Miss, Link, Close, CloseCycle, Leave, ChildHost,
        Preorder, Onward, Finishing, FinishingOnward;
      ghost var before := View();
      NewlyVisited(w, before, path, host, t, k);
      Begin(path, host, t, k);
      EnterStarts(w, before, path, host, t, k);
      var edges := w.Edges(path);
      for i := 0 to |edges|
        invariant Walking(w, before, View(), path, host, k, i)
        invariant Onward(w, nodes, path, i) == Preorder(w, before.graph.nodes, path)
        invariant finished + FinishingOnward(w, nodes, path, i) + [path] == before.finished + Finishing(w, before.graph.nodes, path)
      {
        WalkingKeys(w, before, View(), path, host, k, i);
        var target := w.Target(edges[i]);
        if target.None? {
          ghost var here := View();
          OnwardMiss(w, nodes, path, i);
          RecordMiss(path, edges[i].path);
          MissAdvances(w, before, here, path, host, k, i);
        } else {
          LeadsTo(w, path, i);
          Include(edges[i], target.value, path, host, package, before, k, t, i);
        }
      }
      ghost var last := View();
      OnwardEnds(w, nodes, path);
      WalkingKeys(w, before, last, path, host, k, |edges|);
      Finish(path);
      LeaveEnds(w, before, last, path, host, k);
    }

    /** One include of `path` that leads to the member `child`. */
    method Include(edge: Edge, child: Path, path: Path, host: seq<string>, package: string,
                   ghost before: State, ghost k: nat, ghost t: Trail, ghost i: nat)
      requires Walking(w, before, View(), path, host, k, i) && path !in before.color
      requires w.Leads(path, i, child) && edge == w.Edges(path)[i]
      requires MetBy(w, path, k, t, host) && package == w.packages[k].name
      modifies this
      decreases w.members.Keys - color.Keys, 1
      ensures Walking(w, before, View(), path, host, k, i + 1)
      ensures i < |w.Edges(path)| && Onward(w, nodes, path, i + 1) == Onward(w, old(nodes), path, i)
      ensures finished + FinishingOnward(w, nodes, path, i + 1) == old(finished) + FinishingOnward(w, old(nodes), path, i)
    {
      hide Inv, Walking, Walked, Enterable, Opened, Untouched, MetBy, Enter, Miss, Link, Close, CloseCycle, Leave, ChildHost,
        Preorder, Onward, Finishing, FinishingOnward;
      OnwardLink(w, nodes, path, i, child);
      Associates(finished, Finishing(w, nodes, child), FinishingOnward(w, Preorder(w, nodes, child), path, i + 1));
      ghost var here := View();
      WalkingKeys(w, before, here, path, host, k, i);
      RecordLink(path, child);
      LinkOpens(w, before, here, path, host, k, i, child);
      ghost var open := View();
      VisitedIsListed(w, before, open, path, host, k, i, child);
      var childHost := ChildHost(host, edge.suffix, package);
      if child in color && color[child] == Gray {
        RecordCycle(path, edge.path, child);
        CycleAdvances(w, before, open, path, host, k, i, child);
      } else {
        if child !in color {
          ChildMet(w, path, k, t, host, i, child);
          ChildEnterable(w, before, open, path, host, k, i, child, Step(t, i), childHost);
          Walk(child, childHost, package, k, Step(t, i));
          ChildReturns(w, before, open, View(), path, host, k, i, child, childHost);
        } else {
          ChildFinished(w, before, open, path, host, k, i, child);
        }
        ghost var closing := View();
        Advance(path);
        CloseAdvances(w, before, closing, path, host, k, i, child);
      }
    }
  }

  // ---- The graph of a workspace ----

  /** The entries of the first `n` packages have been met. */
  ghost predicate EntriesMet(w: Workspace, s: State, n: nat) {
    forall k :: 0 <= k < n && k < |w.packages| && w.Seeded(w.packages[k]) ==> w.packages[k].entry.value in s.color
  }

  lemma EntryEnterable(w: Workspace, s: State, k: nat)
    requires Inv(w, s, false) && s.stack == [] && k < |w.packages| && w.Seeded(w.packages[k])
    requires w.packages[k].entry.value !in s.color && EntriesMet(w, s, k)
    ensures Enterable(w, s, w.packages[k].entry.value, k, Start(w.packages[k].entry.value), [])
  {
    hide Inv;
  }

  lemma EntryWalked(w: Workspace, s: State, after: State, k: nat)
    requires EntriesMet(w, s, k) && s.stack == [] && k < |w.packages| && w.Seeded(w.packages[k])
    requires Walked(w, s, after, w.packages[k].entry.value, [])
    ensures Inv(w, after, false) && after.stack == [] && EntriesMet(w, after, k + 1)
  {
    hide Inv;
    FinishedInColor(w, after, false);
  }

  lemma FinishedInColor(w: Workspace, s: State, open: bool)
    requires Inv(w, s, open)
    ensures forall p :: p in s.finished ==> p in s.color
  {
    hide Keyed, Counted, Recorded, CyclesRecorded, Settled, Transposed, Hosted, Inherited, TrueCycles, Nested, Chained;
  }

  method ProjectGraph(w: Workspace) returns (g: Graph)
    ensures IsProjectGraph(w, g)
  {
    hide Inv, Walked, Enterable, EntriesMet, IsProjectGraph, Complete;
    var walk := new IncludeWalk(w);
    NoEntries(w, walk.View());
    for k := 0 to |w.packages|
      invariant walk.w == w && Inv(w, walk.View(), false) && walk.stack == []
      invariant EntriesMet(w, walk.View(), k) && walk.nodes == EntryOrder(w, k) && walk.finished == FinishOrder(w, k)
    {
      var package := w.packages[k];
      if w.Seeded(package) && package.entry.value !in walk.color {
        ghost var before := walk.View();
        EntryEnterable(w, before, k);
        walk.Walk(package.entry.value, [], package.name, k, Start(package.entry.value));
        EntryWalked(w, before, walk.View(), k);
      } else {
        EntrySkipped(w, walk.View(), k);
        OrderSkipped(w, walk.View(), k);
      }
    }
    WalkIsOver(w, walk.View());
    g := walk.Result();
  }

  lemma NoEntries(w: Workspace, s: State)
    ensures EntriesMet(w, s, 0)
  {
  }

  lemma EntrySkipped(w: Workspace, s: State, k: nat)
    requires EntriesMet(w, s, k) && k < |w.packages|
    requires !w.Seeded(w.packages[k]) || w.packages[k].entry.value in s.color
    ensures EntriesMet(w, s, k + 1)
  {
  }

  lemma OrderSkipped(w: Workspace, s: State, k: nat)
    requires Inv(w, s, false) && k < |w.packages| && s.graph.nodes == EntryOrder(w, k)
    requires !w.Seeded(w.packages[k]) || w.packages[k].entry.value in s.color
    ensures EntryOrder(w, k + 1) == EntryOrder(w, k) && FinishOrder(w, k + 1) == FinishOrder(w, k)
  {
    hide Inv, Onward, FinishingOnward;
    if w.Seeded(w.packages[k]) {
      ListedIsColored(w, s, false, w.packages[k].entry.value);
    }
  }

  lemma WalkIsOver(w: Workspace, s: State)
    requires Inv(w, s, false) && s.stack == [] && EntriesMet(w, s, |w.packages|)
    requires s.graph.nodes == EntryOrder(w, |w.packages|) && s.finished == FinishOrder(w, |w.packages|)
    ensures IsProjectGraph(w, s.graph)
  {
    hide Inv, IsProjectGraph;
    CompleteIsProjectGraph(w, s);
  }

  // ---- Nodes, hosts and links are determined by the workspace ----

  lemma {:induction false} HostsAgree(w: Workspace, nodes: seq<Path>, a: map<Path, seq<string>>, ka: map<Path, nat>,
                                      b: map<Path, seq<string>>, kb: map<Path, nat>, j: nat)
    requires Inherited(w, nodes, a, ka) && Inherited(w, nodes, b, kb) && j < |nodes|
    ensures nodes[j] in a && nodes[j] in ka && nodes[j] in b && nodes[j] in kb
    ensures a[nodes[j]] == b[nodes[j]] && ka[nodes[j]] == kb[nodes[j]]
    decreases j
  {
    hide ChildHost;
    var p := nodes[j];
    assert Inherits(w, nodes, a, ka, j) && Inherits(w, nodes, b, kb, j);
    if i, e: nat :| 0 <= i < j && InheritsFrom(w, nodes[i], p, e, a, ka) && ReachedAlong(w, nodes, i, e, j) {
      assert Includes(w, nodes[i], p);
      var m, f: nat :| 0 <= m < j && InheritsFrom(w, nodes[m], p, f, b, kb) && ReachedAlong(w, nodes, m, f, j);
      assert Includes(w, nodes[m], p);
      assert i == m && e == f;
      HostsAgree(w, nodes, a, ka, b, kb, i);
    } else {
      SameFirst(w, ka[p], kb[p], p);
    }
  }

  lemma SameFirst(w: Workspace, k: nat, m: nat, p: Path)
    requires FirstSeeded(w, k, p) && FirstSeeded(w, m, p)
    ensures k == m
  {
  }

  lemma HostsDetermined(w: Workspace, g: Graph, h: Graph)
    requires HostsFollowIncludes(w, g) && HostsFollowIncludes(w, h) && g.nodes == h.nodes
    ensures g.hosts == h.hosts
  {
    hide MetBy, Inherited;
    var ka :| Inherited(w, g.nodes, g.hosts, ka);
    var kb :| Inherited(w, h.nodes, h.hosts, kb);
    forall p | p in g.hosts
      ensures p in h.hosts && g.hosts[p] == h.hosts[p]
    {
      var j :| 0 <= j < |g.nodes| && g.nodes[j] == p;
      HostsAgree(w, g.nodes, g.hosts, ka, h.hosts, kb, j);
    }
    assert g.hosts.Keys == h.hosts.Keys;
  }

  /** A workspace has one order of nodes, one host for each, one list of links from
      each, and for each one list of reported cycle edges and unresolved includes. */
  lemma GraphIsDetermined(w: Workspace, g: Graph, h: Graph)
    requires IsProjectGraph(w, g) && IsProjectGraph(w, h)
    ensures g.nodes == h.nodes && g.hosts == h.hosts && g.forward == h.forward
    ensures forall p :: CyclesFrom(g.cycles, p) == CyclesFrom(h.cycles, p)
    ensures forall p :: MissesFrom(g.unresolved, p) == MissesFrom(h.unresolved, p)
  {
    hide AcyclicWithoutReported, CyclesAreBackEdges, TrueCycles, Transposed, EntryOrder, HostsFollowIncludes, IncludesRecorded,
      NodesAreReached;
    HostsDetermined(w, g, h);
    LinksAgree(w, g, h);
    CyclesAgree(w, g, h);
  }

  lemma CyclesAgree(w: Workspace, g: Graph, h: Graph)
    requires CyclesAreBackEdges(w, g) && CyclesAreBackEdges(w, h)
    ensures forall p :: CyclesFrom(g.cycles, p) == CyclesFrom(h.cycles, p)
  {
    hide FinishOrder, Distinct;
    forall p
      ensures CyclesFrom(g.cycles, p) == CyclesFrom(h.cycles, p)
    {
      if p in FinishOrder(w, |w.packages|) {
        assert CyclesOf(w, p, |w.Edges(p)|, g.cycles, FinishOrder(w, |w.packages|));
        assert CyclesOf(w, p, |w.Edges(p)|, h.cycles, FinishOrder(w, |w.packages|));
      } else {
        NoneFrom(w, g, p);
        NoneFrom(w, h, p);
      }
    }
  }

  lemma NoneFrom(w: Workspace, g: Graph, p: Path)
    requires CyclesAreBackEdges(w, g) && p !in FinishOrder(w, |w.packages|)
    ensures CyclesFrom(g.cycles, p) == []
  {
    hide FinishOrder, Distinct, CyclesOf;
    OnlyOwnListed(g.cycles, p);
  }

  lemma {:induction false} OnlyOwnListed(cycles: seq<CycleEdge>, p: Path)
    requires forall c :: c in cycles ==> c.from != p
    ensures CyclesFrom(cycles, p) == []
    decreases |cycles|
  {
    if cycles != [] {
      assert cycles[|cycles| - 1] in cycles;
      OnlyOwnListed(cycles[..|cycles| - 1], p);
    }
  }

  lemma LinksAgree(w: Workspace, g: Graph, h: Graph)
    requires IncludesRecorded(w, g) && IncludesRecorded(w, h) && g.nodes == h.nodes
    ensures g.forward == h.forward
    ensures forall p :: MissesFrom(g.unresolved, p) == MissesFrom(h.unresolved, p)
  {
    hide MissesFrom;
    forall p
      ensures Listed(g.forward, p) == Listed(h.forward, p)
      ensures MissesFrom(g.unresolved, p) == MissesFrom(h.unresolved, p)
    {
      if p in g.nodes {
        assert LinksOf(w, p, |w.Edges(p)|, g.forward, g.unresolved) && LinksOf(w, p, |w.Edges(p)|, h.forward, h.unresolved);
      }
    }
    hide LinksOf;
    assert forall p :: p in g.forward <==> Listed(g.forward, p) != [];
    assert forall p :: p in h.forward <==> Listed(h.forward, p) != [];
    assert g.forward.Keys == h.forward.Keys;
  }
}
