/** Host modules as compositions (src/incremental.rs): along the includes that lead
    to a file the walk joins the module suffixes and drops the package's own name.
    It is meant to drop it once; it does so exactly unless a second step taken in
    the root module names the package again. */
module IncludeHosts {
  import opened Sequences
  import opened Wrappers
  import opened IncludeGraph
  import opened IncludeSteps
  import opened IncludeWalk

  /** The modules around the includes of a trail, outermost first. */
  function Suffixes(w: Workspace, t: Trail): seq<string> {
    match t
    case Start(_) => []
    case Step(prev, edge) =>
      match End(w, prev)
      case None => []
      case Some(p) => if edge < |w.Edges(p)| then Suffixes(w, prev) + w.Edges(p)[edge].suffix else []
  }

  predicate StartsWithName(names: seq<string>, package: string) {
    names != [] && names[0] == package
  }

  /** The composition with the package's own root module dropped once. */
  function StripOnce(names: seq<string>, package: string): seq<string> {
    if StartsWithName(names, package) then names[1..] else names
  }

  /** Some step is taken when the modules so far are just the package's own, and
      opens a module of that name again. */
  predicate StripsAgain(w: Workspace, package: string, t: Trail) {
    match t
    case Start(_) => false
    case Step(prev, edge) =>
      match End(w, prev)
      case None => false
      case Some(p) =>
        StripsAgain(w, package, prev)
        || (edge < |w.Edges(p)| && Suffixes(w, prev) == [package] && StartsWithName(w.Edges(p)[edge].suffix, package))
  }

  lemma {:induction false} HostOfTrail(w: Workspace, package: string, t: Trail)
    requires End(w, t).Some?
    ensures !StripsAgain(w, package, t) ==> TrailHost(w, package, t) == StripOnce(Suffixes(w, t), package)
    ensures StripsAgain(w, package, t) ==> |TrailHost(w, package, t)| + 2 <= |Suffixes(w, t)|
    decreases t
  {
    if t.Step? {
      var p := End(w, t.prev).value;
      HostOfTrail(w, package, t.prev);
      var before, suffix := Suffixes(w, t.prev), w.Edges(p)[t.edge].suffix;
      if StartsWithName(before, package) {
        assert (before + suffix)[1..] == before[1..] + suffix;
      }
    }
  }

  /** For every trail: the host is the composition with the package name stripped
      once exactly when no step strips again. */
  lemma HostIsComposition(w: Workspace, package: string, t: Trail)
    requires End(w, t).Some?
    ensures TrailHost(w, package, t) == StripOnce(Suffixes(w, t), package) <==> !StripsAgain(w, package, t)
  {
    HostOfTrail(w, package, t);
  }

  /** Every recorded host is reached by such a trail: a composition stripped once,
      or at least two names short of the composition. */
  lemma RecordedHosts(w: Workspace, g: Graph, p: Path) returns (k: nat, t: Trail)
    requires IsProjectGraph(w, g) && p in g.nodes
    ensures p in g.hosts && k < |w.packages| && w.Seeded(w.packages[k])
    ensures Origin(t) == w.packages[k].entry.value && End(w, t) == Some(p)
    ensures var package := w.packages[k].name;
      if StripsAgain(w, package, t) then |g.hosts[p]| + 2 <= |Suffixes(w, t)|
      else g.hosts[p] == StripOnce(Suffixes(w, t), package)
  {
    k, t :| MetBy(w, p, k, t, g.hosts[p]);
    HostOfTrail(w, w.packages[k].name, t);
    hide StripsAgain, StripOnce, Suffixes, TrailHost;
  }

  // ---- A package that strips twice ----

  function Same(p: Path): Path {
    p
  }

  /** Package `P`, whose entry `e` opens a module `P` around its include of `a`,
      which opens a module `P` around its include of `b`. */
  function TwicePackage(): Workspace {
    Workspace(
      map["e" := [Edge("a", Some("a"), ["P"])], "a" := [Edge("b", Some("b"), ["P"])], "b" := []],
      [Package("P", Some("e"))],
      Same)
  }

  lemma TwiceEdges()
    ensures var w := TwicePackage();
      && w.Edges("e") == [Edge("a", Some("a"), ["P"])] && w.Edges("a") == [Edge("b", Some("b"), ["P"])] && w.Edges("b") == []
      && w.Target(w.Edges("e")[0]) == Some("a") && w.Target(w.Edges("a")[0]) == Some("b")
      && "e" != "a" && "a" != "b" && "b" != "e"
      && "e" in w.members && "a" in w.members && "b" in w.members
      && w.members.Keys == {"e", "a", "b"}
  {
    assert "e"[0] != "a"[0] && "a"[0] != "b"[0] && "b"[0] != "e"[0];
  }

  const TO_B: Trail := Step(Step(Start("e"), 0), 0)

  lemma {:induction false} TwiceTrails(t: Trail)
    requires var w := TwicePackage(); Origin(t) == "e" && End(w, t).Some?
    ensures var w := TwicePackage();
      && (End(w, t).value == "e" ==> t == Start("e"))
      && (End(w, t).value == "a" ==> t == Step(Start("e"), 0))
      && (End(w, t).value == "b" ==> t == TO_B)
      && End(w, t).value in {"e", "a", "b"}
    decreases t
  {
    TwiceEdges();
    if t.Step? {
      TwiceTrails(t.prev);
    }
  }

  lemma TwiceComposition()
    ensures var w := TwicePackage();
      && End(w, TO_B) == Some("b") && StripsAgain(w, "P", TO_B)
      && TrailHost(w, "P", TO_B) == [] && StripOnce(Suffixes(w, TO_B), "P") == ["P"]
  {
    TwiceEdges();
    hide TwicePackage;
    var w := TwicePackage();
    var one := Step(Start("e"), 0);
    assert End(w, Start("e")) == Some("e") && End(w, one) == Some("a");
    assert Suffixes(w, one) == [] + ["P"] && TrailHost(w, "P", one) == [];
    assert Suffixes(w, TO_B) == ["P"] + ["P"];
    assert StripOnce(Suffixes(w, TO_B), "P") == (["P"] + ["P"])[1..];
  }

  /** The graph of that package puts `b` in the root module, where the composition
      with the package name dropped once is the module `P` inside the root. */
  lemma StripsTwice(g: Graph)
    requires IsProjectGraph(TwicePackage(), g)
    ensures "b" in g.hosts && g.hosts["b"] == []
    ensures StripOnce(Suffixes(TwicePackage(), TO_B), "P") == ["P"]
  {
    var w := TwicePackage();
    hide IsProjectGraph, TrailHost, Suffixes, StripsAgain, StripOnce;
    TwiceComposition();
    TwiceEdges();
    assert w.packages == [Package("P", Some("e"))];
    assert |Suffixes(w, TO_B)| == 2 by {
      TwiceSuffixes();
    }
    assert Origin(TO_B) == "e";
    ReachedIsNode(w, g, 0, TO_B);
    var k, t := RecordedHosts(w, g, "b");
    hide TwicePackage;
    TwiceTrails(t);
  }

  lemma TwiceSuffixes()
    ensures Suffixes(TwicePackage(), TO_B) == ["P", "P"]
  {
    TwiceEdges();
    hide TwicePackage;
    var w := TwicePackage();
    var one := Step(Start("e"), 0);
    assert End(w, Start("e")) == Some("e") && End(w, one) == Some("a");
    assert Suffixes(w, one) == [] + ["P"];
  }

  lemma ReachedIsNode(w: Workspace, g: Graph, k: nat, t: Trail)
    requires IsProjectGraph(w, g) && k < |w.packages| && w.Seeded(w.packages[k])
    requires Origin(t) == w.packages[k].entry.value && End(w, t).Some?
    ensures End(w, t).value in g.nodes
  {
    hide NodesInOrder, HostsFollowIncludes, IncludesRecorded, Transposed, TrueCycles, CyclesAreBackEdges, AcyclicWithoutReported,
      Distinct;
    assert Reached(w, End(w, t).value);
  }
}
