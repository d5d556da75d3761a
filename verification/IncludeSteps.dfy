/** The state of the include walk and its six atomic updates, with the invariant
    that every one of them keeps. The invariant ties what is recorded so far to
    how far each visited file has been read and to the order in which files were
    finished. */
module IncludeSteps {
  import opened Sequences
  import opened Wrappers
  import opened IncludeGraph

  datatype Color = Gray | Black

  datatype Graph = Graph(
    nodes: seq<Path>,
    forward: map<Path, seq<Path>>,
    reverse: map<Path, seq<Path>>,
    hosts: map<Path, seq<string>>,
    cycles: seq<CycleEdge>,
    unresolved: seq<UnresolvedInclude>)

  /** `linked` counts the includes of a file already recorded, `done` those whose
      targets have also been dealt with; `stack` holds the files being walked,
      outermost first, and `finished` the others in the order they were left;
      `trail` and `owner` say along which includes, of which package, a file was
      first met. */
  datatype State = State(
    color: map<Path, Color>,
    graph: Graph,
    linked: map<Path, nat>,
    done: map<Path, nat>,
    stack: seq<Path>,
    finished: seq<Path>,
    trail: map<Path, Trail>,
    owner: map<Path, nat>)
  {
    function Top(): Path
      requires stack != []
    {
      stack[|stack| - 1]
    }
  }

  // ---- The updates ----

  function Enter(s: State, p: Path, host: seq<string>, t: Trail, k: nat): State {
    s.(color := s.color[p := Gray],
       graph := s.graph.(nodes := s.graph.nodes + [p], hosts := s.graph.hosts[p := host]),
       linked := s.linked[p := 0], done := s.done[p := 0],
       stack := s.stack + [p], trail := s.trail[p := t], owner := s.owner[p := k])
  }

  function Miss(s: State, p: Path, written: string): State
    requires p in s.linked && p in s.done
  {
    s.(graph := s.graph.(unresolved := s.graph.unresolved + [UnresolvedInclude(p, written)]),
       linked := s.linked[p := s.linked[p] + 1], done := s.done[p := s.done[p] + 1])
  }

  function Link(s: State, p: Path, q: Path): State
    requires p in s.linked
  {
    s.(graph := s.graph.(forward := Pushed(s.graph.forward, p, q), reverse := Pushed(s.graph.reverse, q, p)),
       linked := s.linked[p := s.linked[p] + 1])
  }

  function Close(s: State, p: Path): State
    requires p in s.done
  {
    s.(done := s.done[p := s.done[p] + 1])
  }

  function CloseCycle(s: State, p: Path, written: string, q: Path): State
    requires p in s.done
  {
    s.(graph := s.graph.(cycles := s.graph.cycles + [CycleEdge(p, written, q)]),
       done := s.done[p := s.done[p] + 1])
  }

  function Leave(s: State, p: Path): State
    requires s.stack != []
  {
    s.(color := s.color[p := Black], stack := s.stack[..|s.stack| - 1], finished := s.finished + [p])
  }

  // ---- The invariant ----

  ghost predicate Keyed(w: Workspace, color: map<Path, Color>, nodes: seq<Path>, hosts: map<Path, seq<string>>,
                        linked: map<Path, nat>, done: map<Path, nat>, trail: map<Path, Trail>, owner: map<Path, nat>)
  {
    && (forall p :: p in color <==> p in nodes)
    && Distinct(nodes)
    && hosts.Keys == linked.Keys == done.Keys == trail.Keys == owner.Keys == color.Keys
    && color.Keys <= w.members.Keys
  }

  ghost predicate Ordered(color: map<Path, Color>, stack: seq<Path>, finished: seq<Path>) {
    && Distinct(stack) && Distinct(finished)
    && (forall p :: p in stack <==> p in color && color[p] == Gray)
    && (forall p :: p in finished <==> p in color && color[p] == Black)
  }

  /** Files below the top of the stack, and the top while it is `open`, have one
      include recorded whose target is still being walked. */
  ghost predicate Counted(w: Workspace, linked: map<Path, nat>, done: map<Path, nat>,
                          stack: seq<Path>, finished: seq<Path>, open: bool)
  {
    && (forall p :: p in finished ==> p in done && p in linked && done[p] == linked[p] == |w.Edges(p)|)
    && (forall i :: 0 <= i < |stack| ==>
          && stack[i] in done && stack[i] in linked
          && linked[stack[i]] == done[stack[i]] + (if i < |stack| - 1 || open then 1 else 0))
  }

  /** Each file on the stack is being walked because of the next include of the
      file below it. */
  ghost predicate Chained(w: Workspace, stack: seq<Path>, done: map<Path, nat>) {
    && (forall i :: 0 <= i < |stack| ==> stack[i] in w.members)
    && forall i :: 0 <= i < |stack| - 1 ==> stack[i] in done && w.Leads(stack[i], done[stack[i]], stack[i + 1])
  }

  ghost predicate LinksOf(w: Workspace, p: Path, k: nat, forward: map<Path, seq<Path>>, unresolved: seq<UnresolvedInclude>) {
    && k <= |w.Edges(p)|
    && Listed(forward, p) == Targets(w, p, k)
    && MissesFrom(unresolved, p) == Misses(w, p, k)
  }

  ghost predicate Recorded(w: Workspace, forward: map<Path, seq<Path>>, unresolved: seq<UnresolvedInclude>, linked: map<Path, nat>) {
    && (forall p :: p in linked ==> LinksOf(w, p, linked[p], forward, unresolved))
    && (forall p :: p !in linked ==> p !in forward && MissesFrom(unresolved, p) == [])
    && (forall p :: p in forward ==> forward[p] != [])
  }

  ghost predicate CyclesOf(w: Workspace, p: Path, k: nat, cycles: seq<CycleEdge>, finished: seq<Path>) {
    k <= |w.Edges(p)| && CyclesFrom(cycles, p) == BackEdges(w, finished, p, k)
  }

  ghost predicate CyclesRecorded(w: Workspace, cycles: seq<CycleEdge>, finished: seq<Path>, done: map<Path, nat>) {
    && (forall p :: p in done ==> CyclesOf(w, p, done[p], cycles, finished))
    && (forall p :: p !in done ==> CyclesFrom(cycles, p) == [])
  }

  /** The target of an include dealt with is finished, or is being walked at or
      below the file that includes it. */
  ghost predicate DealtWith(p: Path, q: Path, stack: seq<Path>, finished: seq<Path>) {
    q in finished || (q in stack && (p in stack ==> IndexOf(stack, q) <= IndexOf(stack, p)))
  }

  ghost predicate Settled(w: Workspace, done: map<Path, nat>, stack: seq<Path>, finished: seq<Path>) {
    forall p, i: nat, q :: p in done && i < done[p] && w.Leads(p, i, q) ==> DealtWith(p, q, stack, finished)
  }

  ghost predicate Transposed(forward: map<Path, seq<Path>>, reverse: map<Path, seq<Path>>) {
    forall p, q :: multiset(Listed(forward, p))[q] == multiset(Listed(reverse, q))[p]
  }

  ghost predicate MetBy(w: Workspace, p: Path, k: nat, t: Trail, host: seq<string>) {
    && k < |w.packages| && w.Seeded(w.packages[k])
    && Origin(t) == w.packages[k].entry.value && End(w, t) == Some(p)
    && host == TrailHost(w, w.packages[k].name, t)
  }

  ghost predicate Hosted(w: Workspace, hosts: map<Path, seq<string>>, trail: map<Path, Trail>, owner: map<Path, nat>) {
    forall p :: p in hosts && p in trail && p in owner ==> MetBy(w, p, owner[p], trail[p], hosts[p])
  }

  /** Package `k` is the first one whose entry is `p`. */
  ghost predicate FirstSeeded(w: Workspace, k: nat, p: Path) {
    && k < |w.packages| && w.Seeded(w.packages[k]) && w.packages[k].entry.value == p
    && forall m :: 0 <= m < k && w.Seeded(w.packages[m]) ==> w.packages[m].entry.value != p
  }

  ghost predicate Includes(w: Workspace, p: Path, q: Path) {
    exists e: nat :: w.Leads(p, e, q)
  }

  /** Include `e` of node `i` is the one along which node `j` is first reached: no
      node between them includes it, and no earlier include of node `i` does. */
  ghost predicate ReachedAlong(w: Workspace, nodes: seq<Path>, i: nat, e: nat, j: nat)
    requires i < j < |nodes|
  {
    && (forall m :: i < m < j ==> !Includes(w, nodes[m], nodes[j]))
    && (forall f: nat :: f < e ==> !w.Leads(nodes[i], f, nodes[j]))
  }

  /** Node `j` is a package entry no earlier node includes, in the root module, or
      inherits its host module along the include that first reaches it. */
  ghost predicate Inherits(w: Workspace, nodes: seq<Path>, hosts: map<Path, seq<string>>, owner: map<Path, nat>, j: nat)
    requires j < |nodes|
  {
    var p := nodes[j];
    && p in hosts && p in owner && owner[p] < |w.packages|
    && ((FirstSeeded(w, owner[p], p) && hosts[p] == [] && forall i :: 0 <= i < j ==> !Includes(w, nodes[i], p))
        || exists i, e: nat :: 0 <= i < j && InheritsFrom(w, nodes[i], p, e, hosts, owner) && ReachedAlong(w, nodes, i, e, j))
  }

  ghost predicate InheritsFrom(w: Workspace, includer: Path, p: Path, e: nat,
                               hosts: map<Path, seq<string>>, owner: map<Path, nat>)
  {
    && includer in hosts && includer in owner && p in hosts && p in owner
    && owner[includer] == owner[p] && owner[p] < |w.packages|
    && w.Leads(includer, e, p)
    && hosts[p] == ChildHost(hosts[includer], w.Edges(includer)[e].suffix, w.packages[owner[p]].name)
  }

  ghost predicate Inherited(w: Workspace, nodes: seq<Path>, hosts: map<Path, seq<string>>, owner: map<Path, nat>) {
    forall j :: 0 <= j < |nodes| ==> Inherits(w, nodes, hosts, owner, j)
  }

  /** The files being walked were first visited in the order of the stack. */
  ghost predicate Nested(nodes: seq<Path>, stack: seq<Path>) {
    forall i, j :: 0 <= i < j < |stack| ==> IndexOf(nodes, stack[i]) < IndexOf(nodes, stack[j])
  }

  /** A reported edge is a real include, and its target reaches its source. */
  ghost predicate TrueCycle(w: Workspace, c: CycleEdge) {
    && (exists i: nat :: w.Leads(c.from, i, c.to) && w.Edges(c.from)[i].path == c.path)
    && Reaches(w, c.to, c.from)
  }

  ghost predicate TrueCycles(w: Workspace, cycles: seq<CycleEdge>) {
    forall c :: c in cycles ==> TrueCycle(w, c)
  }

  ghost predicate Inv(w: Workspace, s: State, open: bool) {
    && Keyed(w, s.color, s.graph.nodes, s.graph.hosts, s.linked, s.done, s.trail, s.owner)
    && Ordered(s.color, s.stack, s.finished)
    && Counted(w, s.linked, s.done, s.stack, s.finished, open)
    && Chained(w, s.stack, s.done)
    && Recorded(w, s.graph.forward, s.graph.unresolved, s.linked)
    && CyclesRecorded(w, s.graph.cycles, s.finished, s.done)
    && Settled(w, s.done, s.stack, s.finished)
    && Transposed(s.graph.forward, s.graph.reverse)
    && Hosted(w, s.graph.hosts, s.trail, s.owner)
    && Inherited(w, s.graph.nodes, s.graph.hosts, s.owner)
    && TrueCycles(w, s.graph.cycles)
    && Nested(s.graph.nodes, s.stack)
  }

  // ---- Reading off the stack ----

  lemma {:induction false} StackReaches(w: Workspace, stack: seq<Path>, done: map<Path, nat>, j: nat, i: nat)
    requires Chained(w, stack, done) && j <= i < |stack|
    ensures Reaches(w, stack[j], stack[i])
    decreases i
  {
    if i == j {
      var t := Start(stack[j]);
      assert Origin(t) == stack[j] && End(w, t) == Some(stack[j]);
    } else {
      StackReaches(w, stack, done, j, i - 1);
      ReachesStep(w, stack[j], stack[i - 1], done[stack[i - 1]], stack[i]);
    }
  }

  lemma PositionAt(order: seq<Path>, i: nat)
    requires Distinct(order) && i < |order|
    ensures IndexOf(order, order[i]) == i
  {
    PositionInside(order, order[i]);
  }

  lemma TopIsLast(stack: seq<Path>, q: Path)
    requires Distinct(stack) && q in stack
    ensures IndexOf(stack, q) <= IndexOf(stack, stack[|stack| - 1]) == |stack| - 1
    ensures IndexOf(stack, q) == |stack| - 1 ==> q == stack[|stack| - 1]
  {
    PositionInside(stack, q);
    PositionAt(stack, |stack| - 1);
  }

  // ---- Entering a file ----

  lemma EnterSettles(w: Workspace, done: map<Path, nat>, stack: seq<Path>, finished: seq<Path>, p: Path)
    requires Settled(w, done, stack, finished) && p !in done && p !in stack
    ensures Settled(w, done[p := 0], stack + [p], finished)
  {
    forall x, i: nat, q | x in done[p := 0] && i < done[p := 0][x] && w.Leads(x, i, q)
      ensures DealtWith(x, q, stack + [p], finished)
    {
      PositionAppend(stack, p, q);
      PositionAppend(stack, p, x);
      PositionInside(stack, q);
    }
  }

  lemma NothingRecorded(w: Workspace, p: Path, s: State)
    requires p !in s.graph.forward && MissesFrom(s.graph.unresolved, p) == [] && CyclesFrom(s.graph.cycles, p) == []
    ensures LinksOf(w, p, 0, s.graph.forward, s.graph.unresolved) && CyclesOf(w, p, 0, s.graph.cycles, s.finished)
  {
    hide MissesFrom, CyclesFrom;
  }

  lemma EnterRecords(w: Workspace, s: State, p: Path)
    requires p !in s.linked && p !in s.done
    requires Recorded(w, s.graph.forward, s.graph.unresolved, s.linked)
    requires CyclesRecorded(w, s.graph.cycles, s.finished, s.done)
    ensures Recorded(w, s.graph.forward, s.graph.unresolved, s.linked[p := 0])
    ensures CyclesRecorded(w, s.graph.cycles, s.finished, s.done[p := 0])
  {
    hide LinksOf, CyclesOf, MissesFrom, CyclesFrom;
    NothingRecorded(w, p, s);
  }

  lemma EnterOrders(color: map<Path, Color>, nodes: seq<Path>, stack: seq<Path>, finished: seq<Path>, p: Path)
    requires Ordered(color, stack, finished) && p !in color
    ensures Ordered(color[p := Gray], stack + [p], finished)
  {
  }

  lemma EnterCounts(w: Workspace, s: State, p: Path)
    requires Counted(w, s.linked, s.done, s.stack, s.finished, s.stack != []) && Chained(w, s.stack, s.done)
    requires p !in s.linked && p !in s.done && p !in s.stack && p !in s.finished && p in w.members
    requires s.stack != [] ==> w.Leads(s.Top(), s.done[s.Top()], p)
    ensures Counted(w, s.linked[p := 0], s.done[p := 0], s.stack + [p], s.finished, false)
    ensures Chained(w, s.stack + [p], s.done[p := 0])
  {
  }

  lemma EnterKeys(w: Workspace, s: State, p: Path, host: seq<string>, t: Trail, k: nat)
    requires Keyed(w, s.color, s.graph.nodes, s.graph.hosts, s.linked, s.done, s.trail, s.owner)
    requires p !in s.color && p in w.members
    ensures Keyed(w, s.color[p := Gray], s.graph.nodes + [p], s.graph.hosts[p := host],
                  s.linked[p := 0], s.done[p := 0], s.trail[p := t], s.owner[p := k])
  {
  }

  lemma EnterHosts(w: Workspace, s: State, p: Path, host: seq<string>, t: Trail, k: nat)
    requires Hosted(w, s.graph.hosts, s.trail, s.owner) && MetBy(w, p, k, t, host)
    ensures Hosted(w, s.graph.hosts[p := host], s.trail[p := t], s.owner[p := k])
  {
    hide MetBy;
  }

  /** Why a file is entered: as the entry of package `k`, or because the file on
      top of the stack includes it. */
  ghost predicate HandedDown(w: Workspace, s: State, p: Path, host: seq<string>, k: nat) {
    && k < |w.packages|
    && if s.stack == [] then FirstSeeded(w, k, p) && host == []
       else
         && s.Top() in s.done && s.Top() in s.owner && s.Top() in s.graph.hosts
         && w.Leads(s.Top(), s.done[s.Top()], p) && s.owner[s.Top()] == k
         && host == ChildHost(s.graph.hosts[s.Top()], w.Edges(s.Top())[s.done[s.Top()]].suffix, w.packages[k].name)
  }

  /** A file that was not visited is included by no finished file, and by no include
      already dealt with of a file being walked. */
  lemma NotIncludedYet(w: Workspace, s: State, p: Path, open: bool)
    requires Ordered(s.color, s.stack, s.finished) && Counted(w, s.linked, s.done, s.stack, s.finished, open)
    requires Settled(w, s.done, s.stack, s.finished) && p !in s.color
    ensures forall x :: x in s.finished ==> !Includes(w, x, p)
    ensures forall x, f: nat :: x in s.stack && x in s.done && f < s.done[x] ==> !w.Leads(x, f, p)
  {
    forall x, f: nat | x in s.done && f < s.done[x]
      ensures !w.Leads(x, f, p)
    {
      assert w.Leads(x, f, p) ==> DealtWith(x, p, s.stack, s.finished);
    }
    hide Settled, Ordered, DealtWith;
    forall x | x in s.finished
      ensures !Includes(w, x, p)
    {
      assert s.done[x] == |w.Edges(x)|;
    }
  }

  /** Files first visited after the top of the stack are finished. */
  lemma LaterIsFinished(w: Workspace, s: State, m: nat)
    requires Keyed(w, s.color, s.graph.nodes, s.graph.hosts, s.linked, s.done, s.trail, s.owner)
    requires Ordered(s.color, s.stack, s.finished) && Nested(s.graph.nodes, s.stack)
    requires m < |s.graph.nodes| && (s.stack != [] ==> IndexOf(s.graph.nodes, s.Top()) < m)
    ensures s.graph.nodes[m] in s.finished
  {
    hide IndexOf, Nested;
    NodesAreDistinct(w, s);
    PositionAt(s.graph.nodes, m);
    StackUpToTop(s.graph.nodes, s.stack);
    hide Keyed, Distinct;
  }

  lemma NodesAreDistinct(w: Workspace, s: State)
    requires Keyed(w, s.color, s.graph.nodes, s.graph.hosts, s.linked, s.done, s.trail, s.owner)
    ensures Distinct(s.graph.nodes) && forall x :: x in s.graph.nodes ==> x in s.color
  {
    hide Distinct;
  }

  lemma StackUpToTop(nodes: seq<Path>, stack: seq<Path>)
    requires Nested(nodes, stack)
    ensures forall x :: x in stack ==> IndexOf(nodes, x) <= IndexOf(nodes, stack[|stack| - 1])
  {
    hide IndexOf;
  }

  /** The include by which a file is entered is the first to reach it. */
  lemma EnteredFirst(w: Workspace, s: State, p: Path, j: nat)
    requires Keyed(w, s.color, s.graph.nodes, s.graph.hosts, s.linked, s.done, s.trail, s.owner)
    requires Ordered(s.color, s.stack, s.finished) && Counted(w, s.linked, s.done, s.stack, s.finished, s.stack != [])
    requires Settled(w, s.done, s.stack, s.finished) && Nested(s.graph.nodes, s.stack)
    requires p !in s.color && j == |s.graph.nodes|
    ensures s.stack == [] ==> forall i :: 0 <= i < j ==> !Includes(w, s.graph.nodes[i], p)
    ensures s.stack != [] ==>
      var i := IndexOf(s.graph.nodes, s.Top());
      i < j && s.graph.nodes[i] == s.Top() && s.Top() in s.done && ReachedAlong(w, s.graph.nodes + [p], i, s.done[s.Top()], j)
  {
    NotIncludedYet(w, s, p, s.stack != []);
    if s.stack != [] {
      TopInColorOf(w, s);
      PositionInside(s.graph.nodes, s.Top());
    }
    hide Keyed, Ordered, Counted, Settled, Nested, Includes;
    forall m | 0 <= m < j && (s.stack != [] ==> IndexOf(s.graph.nodes, s.Top()) < m)
      ensures !Includes(w, s.graph.nodes[m], p)
    {
      LaterIsFinished(w, s, m);
    }
  }

  lemma TopInColorOf(w: Workspace, s: State)
    requires Keyed(w, s.color, s.graph.nodes, s.graph.hosts, s.linked, s.done, s.trail, s.owner)
    requires Ordered(s.color, s.stack, s.finished) && s.stack != []
    ensures s.Top() in s.stack && s.Top() in s.graph.nodes && s.Top() in s.done
  {
    assert s.Top() in s.stack;
  }

  lemma EnterNests(nodes: seq<Path>, stack: seq<Path>, p: Path)
    requires Nested(nodes, stack) && p !in nodes && forall x :: x in stack ==> x in nodes
    ensures Nested(nodes + [p], stack + [p])
  {
    var longer := stack + [p];
    forall i, j | 0 <= i < j < |longer|
      ensures IndexOf(nodes + [p], longer[i]) < IndexOf(nodes + [p], longer[j])
    {
      assert longer[i] in stack;
      PositionAppend(nodes, p, longer[i]);
      PositionAppend(nodes, p, longer[j]);
      PositionInside(nodes, longer[i]);
    }
  }

  lemma StackIsNodes(w: Workspace, s: State)
    requires Keyed(w, s.color, s.graph.nodes, s.graph.hosts, s.linked, s.done, s.trail, s.owner)
    requires Ordered(s.color, s.stack, s.finished)
    ensures forall x :: x in s.stack ==> x in s.graph.nodes
  {
  }

  lemma EnterInherits(w: Workspace, s: State, p: Path, host: seq<string>, k: nat)
    requires Inherited(w, s.graph.nodes, s.graph.hosts, s.owner) && HandedDown(w, s, p, host, k)
    requires p !in s.graph.nodes && (s.stack != [] ==> s.Top() in s.graph.nodes)
    requires var j := |s.graph.nodes|;
      if s.stack == [] then forall i :: 0 <= i < j ==> !Includes(w, s.graph.nodes[i], p)
      else
        var i := IndexOf(s.graph.nodes, s.Top());
        i < j && s.graph.nodes[i] == s.Top() && s.Top() in s.done && ReachedAlong(w, s.graph.nodes + [p], i, s.done[s.Top()], j)
    ensures Inherited(w, s.graph.nodes + [p], s.graph.hosts[p := host], s.owner[p := k])
  {
    hide ChildHost, Includes, FirstSeeded, ReachedAlong;
    var nodes, hosts, owner := s.graph.nodes + [p], s.graph.hosts[p := host], s.owner[p := k];
    forall j | 0 <= j < |nodes|
      ensures Inherits(w, nodes, hosts, owner, j)
    {
      if j == |s.graph.nodes| {
        if s.stack != [] {
          assert InheritsFrom(w, nodes[IndexOf(s.graph.nodes, s.Top())], p, s.done[s.Top()], hosts, owner);
        }
      } else {
        var q := nodes[j];
        assert Inherits(w, s.graph.nodes, s.graph.hosts, s.owner, j) && q != p;
        assert forall i :: 0 <= i < j ==> nodes[i] == s.graph.nodes[i];
        if i, e: nat :| 0 <= i < j && InheritsFrom(w, s.graph.nodes[i], q, e, s.graph.hosts, s.owner)
                        && ReachedAlong(w, s.graph.nodes, i, e, j) {
          assert InheritsFrom(w, nodes[i], q, e, hosts, owner);
          StillReachedAlong(w, s.graph.nodes, p, i, e, j);
        }
      }
    }
  }

  lemma StillReachedAlong(w: Workspace, nodes: seq<Path>, p: Path, i: nat, e: nat, j: nat)
    requires i < j < |nodes| && ReachedAlong(w, nodes, i, e, j)
    ensures ReachedAlong(w, nodes + [p], i, e, j)
  {
    hide Includes;
    var longer := nodes + [p];
    assert forall m :: 0 <= m <= j ==> longer[m] == nodes[m];
  }

  lemma NotVisited(w: Workspace, s: State, p: Path)
    requires Keyed(w, s.color, s.graph.nodes, s.graph.hosts, s.linked, s.done, s.trail, s.owner)
    requires Ordered(s.color, s.stack, s.finished) && p !in s.color
    ensures p !in s.linked && p !in s.done && p !in s.stack && p !in s.finished
  {
  }

  lemma ColorIsNodes(w: Workspace, s: State, p: Path)
    requires Keyed(w, s.color, s.graph.nodes, s.graph.hosts, s.linked, s.done, s.trail, s.owner)
    ensures p in s.color <==> p in s.graph.nodes
  {
  }

  lemma EnterKeeps(w: Workspace, s: State, p: Path, host: seq<string>, t: Trail, k: nat)
    requires Inv(w, s, s.stack != []) && p !in s.color && p in w.members
    requires HandedDown(w, s, p, host, k)
    requires MetBy(w, p, k, t, host)
    ensures Inv(w, Enter(s, p, host, t, k), false)
  {
    NotVisited(w, s, p);
    hide Keyed, Ordered, Counted, Chained, Recorded, CyclesRecorded, Settled, Transposed, Hosted, Inherited, TrueCycles, Nested, MetBy;
    ColorIsNodes(w, s, p);
    if s.stack != [] {
      TopInColor(s);
      ColorIsNodes(w, s, s.Top());
    }
    EnteredFirst(w, s, p, |s.graph.nodes|);
    EnterInherits(w, s, p, host, k);
    StackIsNodes(w, s);
    EnterNests(s.graph.nodes, s.stack, p);
    EnterKeys(w, s, p, host, t, k);
    EnterOrders(s.color, s.graph.nodes, s.stack, s.finished, p);
    EnterCounts(w, s, p);
    EnterRecords(w, s, p);
    EnterSettles(w, s.done, s.stack, s.finished, p);
    EnterHosts(w, s, p, host, t, k);
  }

  // ---- Recording one include ----

  lemma SameKeys(m: map<Path, nat>, p: Path, n: nat)
    requires p in m
    ensures m[p := n].Keys == m.Keys && m[p := m[p]] == m
  {
  }

  lemma StepKeys(w: Workspace, s: State, p: Path, n: nat, m: nat)
    requires Keyed(w, s.color, s.graph.nodes, s.graph.hosts, s.linked, s.done, s.trail, s.owner) && p in s.color
    ensures p in s.linked && p in s.done
    ensures Keyed(w, s.color, s.graph.nodes, s.graph.hosts, s.linked[p := n], s.done[p := m], s.trail, s.owner)
    ensures s.linked[p := s.linked[p]] == s.linked && s.done[p := s.done[p]] == s.done
  {
    hide Distinct;
    assert p in s.color.Keys && s.linked.Keys == s.color.Keys && s.done.Keys == s.color.Keys;
    SameKeys(s.linked, p, n);
    SameKeys(s.done, p, m);
  }

  lemma StepCounts(w: Workspace, s: State, p: Path, n: nat, m: nat, before: bool, after: bool)
    requires Counted(w, s.linked, s.done, s.stack, s.finished, before) && Chained(w, s.stack, s.done)
    requires Distinct(s.stack) && s.stack != [] && p == s.Top() && p !in s.finished
    requires n == m + (if after then 1 else 0)
    ensures Counted(w, s.linked[p := n], s.done[p := m], s.stack, s.finished, after)
    ensures Chained(w, s.stack, s.done[p := m])
  {
    assert forall i :: 0 <= i < |s.stack| - 1 ==> s.stack[i] != p;
  }

  lemma StepSettles(w: Workspace, s: State, p: Path)
    requires Settled(w, s.done, s.stack, s.finished) && p in s.done
    requires forall q :: w.Leads(p, s.done[p], q) ==> DealtWith(p, q, s.stack, s.finished)
    ensures Settled(w, s.done[p := s.done[p] + 1], s.stack, s.finished)
  {
    hide DealtWith;
    forall x, i: nat, q | x in s.done && i < s.done[p := s.done[p] + 1][x] && w.Leads(x, i, q)
      ensures DealtWith(x, q, s.stack, s.finished)
    {
      if x == p && i == s.done[p] {
        assert w.Leads(p, s.done[p], q);
      }
    }
  }

  lemma TopInColor(s: State)
    requires Ordered(s.color, s.stack, s.finished) && s.stack != []
    ensures s.Top() in s.color && s.Top() in s.stack && s.Top() !in s.finished && Distinct(s.stack)
  {
  }

  lemma TopCount(w: Workspace, s: State, open: bool)
    requires Counted(w, s.linked, s.done, s.stack, s.finished, open) && s.stack != []
    ensures s.Top() in s.linked && s.Top() in s.done
    ensures s.linked[s.Top()] == s.done[s.Top()] + (if open then 1 else 0)
  {
  }

  lemma MissRecords(w: Workspace, s: State, p: Path)
    requires Recorded(w, s.graph.forward, s.graph.unresolved, s.linked)
    requires p in s.linked && s.linked[p] < |w.Edges(p)| && w.Target(w.Edges(p)[s.linked[p]]).None?
    ensures Recorded(w, s.graph.forward, s.graph.unresolved + [UnresolvedInclude(p, w.Edges(p)[s.linked[p]].path)],
                     s.linked[p := s.linked[p] + 1])
  {
    hide LinksOf, MissesFrom;
    var e := UnresolvedInclude(p, w.Edges(p)[s.linked[p]].path);
    forall x
      ensures x in s.linked && x != p ==> LinksOf(w, x, s.linked[x], s.graph.forward, s.graph.unresolved + [e])
      ensures x == p ==> LinksOf(w, p, s.linked[p] + 1, s.graph.forward, s.graph.unresolved + [e])
      ensures x !in s.linked ==> MissesFrom(s.graph.unresolved + [e], x) == []
    {
      MissesFromAppend(s.graph.unresolved, e, x);
      if x in s.linked {
        MissOne(w, p, x, s.linked[x], s.graph.forward, s.graph.unresolved, e);
      }
    }
  }

  lemma MissOne(w: Workspace, p: Path, x: Path, k: nat, forward: map<Path, seq<Path>>, unresolved: seq<UnresolvedInclude>,
                e: UnresolvedInclude)
    requires LinksOf(w, x, k, forward, unresolved) && e.from == p
    requires x == p ==> k < |w.Edges(p)| && w.Target(w.Edges(p)[k]).None? && e == UnresolvedInclude(p, w.Edges(p)[k].path)
    ensures x != p ==> LinksOf(w, x, k, forward, unresolved + [e])
    ensures x == p ==> LinksOf(w, p, k + 1, forward, unresolved + [e])
  {
    MissesFromAppend(unresolved, e, x);
    hide MissesFrom;
  }

  lemma QuietCycles(w: Workspace, s: State, p: Path)
    requires CyclesRecorded(w, s.graph.cycles, s.finished, s.done)
    requires p in s.done && s.done[p] < |w.Edges(p)|
    requires var q := w.Target(w.Edges(p)[s.done[p]]);
      q.Some? ==> Before(s.finished, q.value, p)
    ensures CyclesRecorded(w, s.graph.cycles, s.finished, s.done[p := s.done[p] + 1])
  {
    assert CyclesOf(w, p, s.done[p], s.graph.cycles, s.finished);
  }

  lemma MissKeeps(w: Workspace, s: State, p: Path)
    requires Inv(w, s, false) && s.stack != [] && p == s.Top() && p in s.linked && p in s.done
    requires s.done[p] < |w.Edges(p)| && w.Target(w.Edges(p)[s.done[p]]).None?
    ensures Inv(w, Miss(s, p, w.Edges(p)[s.done[p]].path), false)
  {
    hide Keyed, Ordered, Counted, Chained, Recorded, CyclesRecorded, Settled, Transposed, Hosted, Inherited, TrueCycles, Nested;
    TopInColor(s);
    TopCount(w, s, false);
    StepKeys(w, s, p, s.linked[p] + 1, s.done[p] + 1);
    StepCounts(w, s, p, s.linked[p] + 1, s.done[p] + 1, false, false);
    StepSettles(w, s, p);
    MissRecords(w, s, p);
    QuietCycles(w, s, p);
  }

  lemma LinkRecords(w: Workspace, s: State, p: Path, q: Path)
    requires Recorded(w, s.graph.forward, s.graph.unresolved, s.linked)
    requires p in s.linked && w.Leads(p, s.linked[p], q)
    ensures Recorded(w, Pushed(s.graph.forward, p, q), s.graph.unresolved, s.linked[p := s.linked[p] + 1])
  {
    hide LinksOf, MissesFrom;
    forall x | x in s.linked
      ensures x != p ==> LinksOf(w, x, s.linked[x], Pushed(s.graph.forward, p, q), s.graph.unresolved)
      ensures x == p ==> LinksOf(w, p, s.linked[p] + 1, Pushed(s.graph.forward, p, q), s.graph.unresolved)
    {
      LinkOne(w, p, q, x, s.linked[x], s.graph.forward, s.graph.unresolved);
    }
  }

  lemma LinkOne(w: Workspace, p: Path, q: Path, x: Path, k: nat, forward: map<Path, seq<Path>>, unresolved: seq<UnresolvedInclude>)
    requires LinksOf(w, x, k, forward, unresolved) && (x == p ==> w.Leads(p, k, q))
    ensures x != p ==> LinksOf(w, x, k, Pushed(forward, p, q), unresolved)
    ensures x == p ==> LinksOf(w, p, k + 1, Pushed(forward, p, q), unresolved)
  {
    hide MissesFrom;
  }

  lemma PushedCount(m: map<Path, seq<Path>>, p: Path, q: Path, x: Path, y: Path)
    ensures multiset(Listed(Pushed(m, p, q), x))[y] == multiset(Listed(m, x))[y] + (if x == p && y == q then 1 else 0)
  {
  }

  lemma LinkTransposes(forward: map<Path, seq<Path>>, reverse: map<Path, seq<Path>>, p: Path, q: Path)
    requires Transposed(forward, reverse)
    ensures Transposed(Pushed(forward, p, q), Pushed(reverse, q, p))
  {
    hide Pushed, Listed;
    forall x, y
      ensures multiset(Listed(Pushed(forward, p, q), x))[y] == multiset(Listed(Pushed(reverse, q, p), y))[x]
    {
      PushedCount(forward, p, q, x, y);
      PushedCount(reverse, q, p, y, x);
    }
  }

  lemma LinkKeeps(w: Workspace, s: State, p: Path, q: Path)
    requires Inv(w, s, false) && s.stack != [] && p == s.Top() && p in s.linked && p in s.done
    requires w.Leads(p, s.done[p], q)
    ensures Inv(w, Link(s, p, q), true)
  {
    hide Keyed, Ordered, Counted, Chained, Recorded, CyclesRecorded, Settled, Transposed, Hosted, Inherited, TrueCycles, Nested;
    TopInColor(s);
    TopCount(w, s, false);
    StepKeys(w, s, p, s.linked[p] + 1, s.done[p]);
    StepCounts(w, s, p, s.linked[p] + 1, s.done[p], false, true);
    LinkRecords(w, s, p, q);
    LinkTransposes(s.graph.forward, s.graph.reverse, p, q);
  }

  lemma CloseKeeps(w: Workspace, s: State, p: Path, q: Path)
    requires Inv(w, s, true) && s.stack != [] && p == s.Top() && p in s.linked && p in s.done
    requires w.Leads(p, s.done[p], q) && q in s.finished
    ensures Inv(w, Close(s, p), false)
  {
    hide Keyed, Ordered, Counted, Chained, Recorded, CyclesRecorded, Settled, Transposed, Hosted, Inherited, TrueCycles, Nested,
      IndexOf;
    TopInColor(s);
    TopCount(w, s, true);
    PositionInside(s.finished, p);
    PositionInside(s.finished, q);
    StepKeys(w, s, p, s.linked[p], s.done[p] + 1);
    StepCounts(w, s, p, s.linked[p], s.done[p] + 1, true, false);
    StepSettles(w, s, p);
    QuietCycles(w, s, p);
  }

  lemma LoudCycles(w: Workspace, s: State, p: Path, q: Path)
    requires CyclesRecorded(w, s.graph.cycles, s.finished, s.done)
    requires p in s.done && w.Leads(p, s.done[p], q) && !Before(s.finished, q, p)
    ensures CyclesRecorded(w, s.graph.cycles + [CycleEdge(p, w.Edges(p)[s.done[p]].path, q)], s.finished,
                           s.done[p := s.done[p] + 1])
  {
    var c := CycleEdge(p, w.Edges(p)[s.done[p]].path, q);
    var done := s.done[p := s.done[p] + 1];
    forall x
      ensures x in done ==> CyclesOf(w, x, done[x], s.graph.cycles + [c], s.finished)
      ensures x !in done ==> CyclesFrom(s.graph.cycles + [c], x) == []
    {
      CyclesFromAppend(s.graph.cycles, c, x);
      assert x in s.done ==> CyclesOf(w, x, s.done[x], s.graph.cycles, s.finished);
    }
  }

  lemma RealCycle(w: Workspace, p: Path, i: nat, q: Path)
    requires w.Leads(p, i, q) && Reaches(w, q, p)
    ensures TrueCycle(w, CycleEdge(p, w.Edges(p)[i].path, q))
  {
    hide Reaches;
  }

  lemma CloseCycleKeeps(w: Workspace, s: State, p: Path, q: Path)
    requires Inv(w, s, true) && s.stack != [] && p == s.Top() && p in s.linked && p in s.done
    requires w.Leads(p, s.done[p], q) && q in s.stack && q !in s.finished
    ensures Inv(w, CloseCycle(s, p, w.Edges(p)[s.done[p]].path, q), false)
  {
    hide Keyed, Ordered, Counted, Chained, Recorded, CyclesRecorded, Settled, Transposed, Hosted, Inherited, TrueCycle, IndexOf;
    TopInColor(s);
    TopCount(w, s, true);
    PositionInside(s.finished, p);
    PositionInside(s.finished, q);
    TopIsLast(s.stack, q);
    PositionInside(s.stack, q);
    StackReaches(w, s.stack, s.done, IndexOf(s.stack, q), |s.stack| - 1);
    RealCycle(w, p, s.done[p], q);
    StepKeys(w, s, p, s.linked[p], s.done[p] + 1);
    StepCounts(w, s, p, s.linked[p], s.done[p] + 1, true, false);
    StepSettles(w, s, p);
    LoudCycles(w, s, p, q);
  }

  // ---- Leaving a file ----

  lemma LeaveOrders(color: map<Path, Color>, stack: seq<Path>, finished: seq<Path>, p: Path)
    requires Ordered(color, stack, finished) && stack != [] && p == stack[|stack| - 1]
    ensures Ordered(color[p := Black], stack[..|stack| - 1], finished + [p])
  {
    var rest := stack[..|stack| - 1];
    assert stack == rest + [p];
    assert p in stack;
    forall x
      ensures x in stack <==> x in rest || x == p
    {
    }
  }

  lemma LeaveCounts(w: Workspace, s: State, p: Path)
    requires Counted(w, s.linked, s.done, s.stack, s.finished, false) && Chained(w, s.stack, s.done)
    requires s.stack != [] && p == s.Top() && p in s.done && s.done[p] == |w.Edges(p)|
    ensures var rest := s.stack[..|s.stack| - 1];
      Counted(w, s.linked, s.done, rest, s.finished + [p], rest != []) && Chained(w, rest, s.done)
  {
    var rest := s.stack[..|s.stack| - 1];
    assert forall i :: 0 <= i < |rest| ==> rest[i] == s.stack[i];
  }

  lemma LeaveSettles(w: Workspace, done: map<Path, nat>, stack: seq<Path>, finished: seq<Path>, p: Path)
    requires Settled(w, done, stack, finished) && Distinct(stack) && stack != [] && p == stack[|stack| - 1]
    ensures Settled(w, done, stack[..|stack| - 1], finished + [p])
  {
    var rest := stack[..|stack| - 1];
    assert stack == rest + [p];
    forall x, i: nat, q | x in done && i < done[x] && w.Leads(x, i, q)
      ensures DealtWith(x, q, rest, finished + [p])
    {
      assert DealtWith(x, q, stack, finished);
      PositionAppend(rest, p, q);
      PositionAppend(rest, p, x);
    }
  }

  /** When a file finishes, no earlier classification changes: a file still being
      walked has no finished business with the one that finishes now. */
  lemma LeaveCycles(w: Workspace, s: State, p: Path)
    requires CyclesRecorded(w, s.graph.cycles, s.finished, s.done) && Settled(w, s.done, s.stack, s.finished)
    requires Distinct(s.stack) && s.stack != [] && p == s.Top() && p !in s.finished
    requires forall x :: x in s.done ==> x in s.stack || x in s.finished
    ensures CyclesRecorded(w, s.graph.cycles, s.finished + [p], s.done)
  {
    forall x | x in s.done
      ensures CyclesOf(w, x, s.done[x], s.graph.cycles, s.finished + [p])
    {
      assert CyclesOf(w, x, s.done[x], s.graph.cycles, s.finished);
      forall i: nat, q | i < s.done[x] && w.Leads(x, i, q)
        ensures Before(s.finished + [p], q, x) == Before(s.finished, q, x)
      {
        assert DealtWith(x, q, s.stack, s.finished);
        StaysBefore(s, p, x, q);
      }
      BackEdgesStable(w, s.finished, p, x, s.done[x]);
    }
  }

  lemma StaysBefore(s: State, p: Path, x: Path, q: Path)
    requires Distinct(s.stack) && s.stack != [] && p == s.Top() && p !in s.finished
    requires x in s.stack || x in s.finished
    requires DealtWith(x, q, s.stack, s.finished)
    ensures Before(s.finished + [p], q, x) == Before(s.finished, q, x)
  {
    PositionAppend(s.finished, p, q);
    PositionAppend(s.finished, p, x);
    PositionInside(s.finished, q);
    PositionInside(s.finished, x);
    if q == p && x in s.stack && x !in s.finished {
      TopIsLast(s.stack, x);
      TopIsLast(s.stack, q);
    }
  }

  lemma AllAccounted(w: Workspace, s: State)
    requires Keyed(w, s.color, s.graph.nodes, s.graph.hosts, s.linked, s.done, s.trail, s.owner)
    requires Ordered(s.color, s.stack, s.finished)
    ensures forall x :: x in s.done ==> x in s.stack || x in s.finished
  {
    forall x | x in s.done
      ensures x in s.stack || x in s.finished
    {
      assert x in s.color;
    }
  }

  lemma LeaveKeys(w: Workspace, s: State, p: Path)
    requires Keyed(w, s.color, s.graph.nodes, s.graph.hosts, s.linked, s.done, s.trail, s.owner) && p in s.color
    ensures Keyed(w, s.color[p := Black], s.graph.nodes, s.graph.hosts, s.linked, s.done, s.trail, s.owner)
  {
  }

  lemma LeaveNests(nodes: seq<Path>, stack: seq<Path>)
    requires Nested(nodes, stack) && stack != []
    ensures Nested(nodes, stack[..|stack| - 1])
  {
  }

  lemma LeaveKeeps(w: Workspace, s: State, p: Path)
    requires Inv(w, s, false) && s.stack != [] && p == s.Top() && p in s.done && s.done[p] == |w.Edges(p)|
    ensures Inv(w, Leave(s, p), Leave(s, p).stack != [])
  {
    hide Keyed, Ordered, Counted, Chained, Recorded, CyclesRecorded, Settled, Transposed, Hosted, Inherited, TrueCycles, Nested;
    TopInColor(s);
    AllAccounted(w, s);
    LeaveKeys(w, s, p);
    LeaveOrders(s.color, s.stack, s.finished, p);
    LeaveCounts(w, s, p);
    LeaveSettles(w, s.done, s.stack, s.finished, p);
    LeaveCycles(w, s, p);
    LeaveNests(s.graph.nodes, s.stack);
  }
}
