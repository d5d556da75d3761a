/** The rules of name resolution (src/resolve.rs), written down tier by tier as
    conditions on the file's scopes, its `using` clauses, the workspace module and
    the harvested packages; `Resolve` gives an answer if and only if it follows
    them. */
module ResolutionRules {
  import opened Wrappers
  import opened SemanticModel
  import opened Resolver
  import Text

  // ---- Scopes ----

  /** The scopes a read at `at` looks through: from one to its parent, up to the
      first file or module scope. */
  ghost predicate IsChain(m: SemanticModel, at: ScopeId, chain: seq<ScopeId>) {
    && chain != [] && chain[0] == at
    && (forall i :: 0 <= i < |chain| ==> chain[i] < |m.scopes|)
    && (forall i :: 0 <= i < |chain| - 1 ==>
          && !m.scopes[chain[i]].kind.File? && !m.scopes[chain[i]].kind.Module?
          && m.scopes[chain[i]].parent == Some(chain[i + 1]))
    && var last := m.scopes[chain[|chain| - 1]];
       last.kind.File? || last.kind.Module? || last.parent == None
  }

  lemma {:induction false} ChainOf(m: SemanticModel, at: ScopeId) returns (chain: seq<ScopeId>)
    requires m.Valid() && at < |m.scopes|
    ensures IsChain(m, at, chain)
    decreases at
  {
    var scope := m.scopes[at];
    if scope.kind.File? || scope.kind.Module? || scope.parent == None {
      chain := [at];
    } else {
      chain := ChainOf(m, scope.parent.value);
      chain := [at] + chain;
    }
  }

  lemma ChainTail(m: SemanticModel, at: ScopeId, chain: seq<ScopeId>)
    requires m.Valid() && IsChain(m, at, chain)
    ensures |chain| == 1 <==> m.Outward(at) == None
    ensures |chain| > 1 ==> m.Outward(at) == Some(chain[1]) && IsChain(m, chain[1], chain[1..])
  {
  }

  /** There is one such chain. */
  lemma {:induction false} ChainIsUnique(m: SemanticModel, at: ScopeId, a: seq<ScopeId>, b: seq<ScopeId>)
    requires m.Valid() && IsChain(m, at, a) && IsChain(m, at, b)
    ensures a == b
    decreases |a|
  {
    ChainTail(m, at, a);
    ChainTail(m, at, b);
    if |a| > 1 {
      ChainIsUnique(m, a[1], a[1..], b[1..]);
      assert a == [at] + a[1..] && b == [at] + b[1..];
    }
  }

  // ---- Bindings of the file ----

  predicate HasSigil(name: string) {
    name != "" && name[0] == '@'
  }

  /** Whether a binding goes by a name in a namespace: macros are stored bare and
      asked for with their sigil, imported macros are stored with it. */
  predicate GoesBy(b: Binding, wanted: string, ns: Namespace) {
    match ns
    case Value => b.name == wanted && !b.kind.Macro? && !(b.kind.Import? && HasSigil(b.name))
    case Macro => (b.kind.Macro? && wanted == "@" + b.name) || (b.kind.Import? && HasSigil(b.name) && b.name == wanted)
  }

  ghost predicate BoundAt(m: SemanticModel, chain: seq<ScopeId>, wanted: string, ns: Namespace, j: nat, k: nat) {
    && j < |chain| && chain[j] < |m.scopes| && k < |m.scopes[chain[j]].bindings|
    && m.scopes[chain[j]].bindings[k] < |m.bindings|
    && GoesBy(m.bindings[m.scopes[chain[j]].bindings[k]], wanted, ns)
  }

  /** Binding `k` of scope `j` on the chain is the one found: the last of its scope
      under the name, with none in the scopes before. */
  ghost predicate FoundAt(m: SemanticModel, chain: seq<ScopeId>, wanted: string, ns: Namespace, j: nat, k: nat) {
    && BoundAt(m, chain, wanted, ns, j, k)
    && (forall l: nat :: k < l ==> !BoundAt(m, chain, wanted, ns, j, l))
    && forall i: nat, l: nat :: i < j ==> !BoundAt(m, chain, wanted, ns, i, l)
  }

  ghost predicate BoundTo(m: SemanticModel, chain: seq<ScopeId>, wanted: string, ns: Namespace, b: BindingId) {
    exists j: nat, k: nat :: FoundAt(m, chain, wanted, ns, j, k) && b == m.scopes[chain[j]].bindings[k]
  }

  ghost predicate Unbound(m: SemanticModel, chain: seq<ScopeId>, wanted: string, ns: Namespace) {
    forall j: nat, k: nat :: !BoundAt(m, chain, wanted, ns, j, k)
  }

  lemma NameIs(b: Binding, wanted: string, ns: Namespace)
    ensures NamespacedName(b, ns) == Some(wanted) <==> GoesBy(b, wanted, ns)
  {
  }

  /** The last binding of a scope under the name, or that there is none. */
  lemma {:induction false} LastIs(r: Resolver, bindings: seq<BindingId>, wanted: string, ns: Namespace) returns (k: nat)
    requires forall i :: 0 <= i < |bindings| ==> bindings[i] < |r.model.bindings|
    ensures k <= |bindings|
    ensures r.LastNamed(bindings, wanted, ns) == if k < |bindings| then Some(bindings[k]) else None
    ensures k < |bindings| ==> GoesBy(r.model.bindings[bindings[k]], wanted, ns)
    ensures forall l :: (if k < |bindings| then k < l < |bindings| else 0 <= l < |bindings|) ==>
      !GoesBy(r.model.bindings[bindings[l]], wanted, ns)
    decreases |bindings|
  {
    k := |bindings|;
    if bindings != [] {
      var n := |bindings| - 1;
      NameIs(r.model.bindings[bindings[n]], wanted, ns);
      hide GoesBy, NamespacedName;
      if GoesBy(r.model.bindings[bindings[n]], wanted, ns) {
        k := n;
      } else {
        var i := LastIs(r, bindings[..n], wanted, ns);
        k := if i < n then i else |bindings|;
      }
    }
  }

  lemma BoundFurtherOut(m: SemanticModel, chain: seq<ScopeId>, wanted: string, ns: Namespace, j: nat, k: nat)
    requires chain != []
    ensures BoundAt(m, chain, wanted, ns, j + 1, k) == BoundAt(m, chain[1..], wanted, ns, j, k)
  {
  }

  lemma FoundFurtherOut(m: SemanticModel, chain: seq<ScopeId>, wanted: string, ns: Namespace, j: nat, k: nat)
    requires chain != [] && FoundAt(m, chain[1..], wanted, ns, j, k) && forall l: nat :: !BoundAt(m, chain, wanted, ns, 0, l)
    ensures FoundAt(m, chain, wanted, ns, j + 1, k)
  {
    hide BoundAt;
    forall i: nat, l: nat
      ensures i > 0 ==> BoundAt(m, chain, wanted, ns, i, l) == BoundAt(m, chain[1..], wanted, ns, i - 1, l)
    {
      if i > 0 {
        BoundFurtherOut(m, chain, wanted, ns, i - 1, l);
      }
    }
  }

  /** Where the walk along the chain ends: at the binding found, or nowhere. */
  lemma {:induction false} WalkFinds(r: Resolver, at: ScopeId, chain: seq<ScopeId>, wanted: string, ns: Namespace)
    returns (hit: bool, j: nat, k: nat)
    requires r.Valid() && at < |r.model.scopes| && IsChain(r.model, at, chain)
    ensures hit ==>
      FoundAt(r.model, chain, wanted, ns, j, k) && r.BindingFrom(at, wanted, ns) == Some(r.model.scopes[chain[j]].bindings[k])
    ensures !hit ==> Unbound(r.model, chain, wanted, ns) && r.BindingFrom(at, wanted, ns) == None
    decreases at
  {
    ChainTail(r.model, at, chain);
    var bindings := r.model.scopes[at].bindings;
    k := LastIs(r, bindings, wanted, ns);
    hide GoesBy;
    if k < |bindings| {
      hit, j := true, 0;
    } else {
      assert forall l: nat :: !BoundAt(r.model, chain, wanted, ns, 0, l);
      if |chain| == 1 {
        hit, j := false, 0;
      } else {
        hit, j, k := WalkFinds(r, chain[1], chain[1..], wanted, ns);
        WalkedOut(r.model, chain, wanted, ns, hit, j, k);
        j := j + 1;
      }
    }
  }

  lemma WalkedOut(m: SemanticModel, chain: seq<ScopeId>, wanted: string, ns: Namespace, hit: bool, j: nat, k: nat)
    requires chain != [] && forall l: nat :: !BoundAt(m, chain, wanted, ns, 0, l)
    ensures hit && FoundAt(m, chain[1..], wanted, ns, j, k) ==> FoundAt(m, chain, wanted, ns, j + 1, k)
    ensures !hit && Unbound(m, chain[1..], wanted, ns) ==> Unbound(m, chain, wanted, ns)
  {
    if hit && FoundAt(m, chain[1..], wanted, ns, j, k) {
      FoundFurtherOut(m, chain, wanted, ns, j, k);
    }
    if !hit && Unbound(m, chain[1..], wanted, ns) {
      forall i: nat, l: nat
        ensures !BoundAt(m, chain, wanted, ns, i, l)
      {
        if i > 0 {
          BoundFurtherOut(m, chain, wanted, ns, i - 1, l);
        }
      }
    }
  }

  lemma OneFound(m: SemanticModel, chain: seq<ScopeId>, wanted: string, ns: Namespace, j: nat, k: nat, i: nat, l: nat)
    requires FoundAt(m, chain, wanted, ns, j, k) && FoundAt(m, chain, wanted, ns, i, l)
    ensures j == i && k == l
  {
    hide BoundAt;
  }

  /** The binding found is the last one under the name in the innermost scope on the
      chain that has one. */
  lemma BindingRule(r: Resolver, at: ScopeId, chain: seq<ScopeId>, wanted: string, ns: Namespace)
    requires r.Valid() && at < |r.model.scopes| && IsChain(r.model, at, chain)
    ensures r.BindingFrom(at, wanted, ns) == None <==> Unbound(r.model, chain, wanted, ns)
    ensures forall b: BindingId :: r.BindingFrom(at, wanted, ns) == Some(b) <==> BoundTo(r.model, chain, wanted, ns, b)
  {
    var hit, j, k := WalkFinds(r, at, chain, wanted, ns);
    hide IsChain, Resolver.BindingFrom, BoundAt;
    forall b: BindingId
      ensures r.BindingFrom(at, wanted, ns) == Some(b) <==> BoundTo(r.model, chain, wanted, ns, b)
    {
      if BoundTo(r.model, chain, wanted, ns, b) {
        var i: nat, l: nat :| FoundAt(r.model, chain, wanted, ns, i, l) && b == r.model.scopes[chain[i]].bindings[l];
        if hit {
          OneFound(r.model, chain, wanted, ns, j, k, i, l);
        }
      }
    }
  }

  // ---- Modules and what they export ----

  /** The first of the submodules under a name. */
  ghost predicate FirstUnder(subs: seq<ModuleIndex>, name: string, sub: ModuleIndex) {
    exists k :: 0 <= k < |subs| && subs[k] == sub && sub.name == name && forall j :: 0 <= j < k ==> subs[j].name != name
  }

  /** A path of names leads through submodules from one module to another. */
  ghost predicate PathThrough(steps: seq<ModuleIndex>, path: ModulePath) {
    && |steps| == |path| + 1
    && forall i :: 0 <= i < |path| ==> FirstUnder(steps[i].submodules, path[i], steps[i + 1])
  }

  ghost predicate LeadsTo(root: ModuleIndex, path: ModulePath, m: ModuleIndex) {
    exists steps :: PathThrough(steps, path) && steps[0] == root && steps[|path|] == m
  }

  lemma {:induction false} FirstUnderIs(subs: seq<ModuleIndex>, name: string, sub: ModuleIndex)
    ensures FindSubmodule(subs, name) == Some(sub) <==> FirstUnder(subs, name, sub)
    decreases subs
  {
    if subs != [] && subs[0].name != name {
      FirstUnderIs(subs[1..], name, sub);
      if FirstUnder(subs[1..], name, sub) {
        var k :| 0 <= k < |subs[1..]| && subs[1..][k] == sub && forall j :: 0 <= j < k ==> subs[1..][j].name != name;
        assert subs[k + 1] == sub && forall j :: 0 <= j < k + 1 ==> subs[j].name != name;
      }
      if FirstUnder(subs, name, sub) {
        var k :| 0 <= k < |subs| && subs[k] == sub && sub.name == name && forall j :: 0 <= j < k ==> subs[j].name != name;
        assert subs[1..][k - 1] == sub;
      }
    }
  }

  /** Following a path finds the module it leads to, and nothing when it leads to
      none. */
  lemma {:induction false} PathIs(root: ModuleIndex, path: ModulePath, m: ModuleIndex)
    ensures ModuleAt(root, path) == Some(m) <==> LeadsTo(root, path, m)
    decreases |path|
  {
    if path == [] {
      assert PathThrough([root], path);
    } else {
      var found := FindSubmodule(root.submodules, path[0]);
      if found.Some? {
        FirstUnderIs(root.submodules, path[0], found.value);
        PathIs(found.value, path[1..], m);
        if LeadsTo(found.value, path[1..], m) {
          var steps :| PathThrough(steps, path[1..]) && steps[0] == found.value && steps[|path| - 1] == m;
          assert PathThrough([root] + steps, path);
        }
      }
      if LeadsTo(root, path, m) {
        var steps :| PathThrough(steps, path) && steps[0] == root && steps[|path|] == m;
        FirstUnderIs(root.submodules, path[0], steps[1]);
        assert PathThrough(steps[1..], path[1..]);
      }
    }
  }

  // ---- Clauses that open a module ----

  /** An absolute path of names leads through a harvested package to a module. */
  ghost predicate Opens(packages: Packages, dots: nat, components: seq<string>, m: ModuleIndex) {
    && dots == 0 && components != [] && components[0] in packages
    && LeadsTo(packages[components[0]].root, components[1..], m)
  }

  predicate Exposes(m: ModuleIndex, wanted: string) {
    Export(wanted, true) in m.exports
  }

  /** Clause `i` of the file is a `using` of a whole module, made in a scope on the
      chain, of a module that exports the name. */
  ghost predicate LoadOpens(r: Resolver, chain: seq<ScopeId>, wanted: string, i: nat, m: ModuleIndex) {
    && i < |r.model.loads|
    && r.model.loads[i].kind == LoadKind.Using && !r.model.loads[i].hasItems && r.model.loads[i].scope in chain
    && Opens(r.packages, r.model.loads[i].leadingDots, r.model.loads[i].components, m) && Exposes(m, wanted)
  }

  ghost predicate NoLoadBefore(r: Resolver, chain: seq<ScopeId>, wanted: string, i: nat) {
    forall j: nat, m :: j < i ==> !LoadOpens(r, chain, wanted, j, m)
  }

  ghost predicate FirstLoadIs(r: Resolver, chain: seq<ScopeId>, wanted: string, i: nat, m: ModuleIndex) {
    LoadOpens(r, chain, wanted, i, m) && NoLoadBefore(r, chain, wanted, i)
  }

  /** Clause `i` of a harvested module opens a module that exports the name. */
  ghost predicate UsingOpens(r: Resolver, usings: seq<ModuleUsing>, wanted: string, i: nat, m: ModuleIndex) {
    i < |usings| && Opens(r.packages, usings[i].leadingDots, usings[i].components, m) && Exposes(m, wanted)
  }

  ghost predicate NoUsingBefore(r: Resolver, usings: seq<ModuleUsing>, wanted: string, i: nat) {
    forall j: nat, m :: j < i ==> !UsingOpens(r, usings, wanted, j, m)
  }

  ghost predicate FirstUsingIs(r: Resolver, usings: seq<ModuleUsing>, wanted: string, i: nat, m: ModuleIndex) {
    UsingOpens(r, usings, wanted, i, m) && NoUsingBefore(r, usings, wanted, i)
  }

  lemma OpensIs(r: Resolver, dots: nat, components: seq<string>, m: ModuleIndex)
    ensures Opens(r.packages, dots, components, m) <==>
      dots == 0 && components != [] && r.Library(components) == Some(m)
  {
    if components != [] && components[0] in r.packages {
      PathIs(r.packages[components[0]].root, components[1..], m);
    }
    hide LeadsTo;
  }

  lemma OffersIs(m: ModuleIndex, wanted: string)
    ensures ModuleExports(m, wanted) <==> Exposes(m, wanted)
  {
  }

  lemma {:induction false} OnChain(r: Resolver, at: ScopeId, chain: seq<ScopeId>, declared: ScopeId)
    requires r.Valid() && at < |r.model.scopes| && IsChain(r.model, at, chain)
    ensures r.Reaches(at, declared) <==> declared in chain
    decreases at
  {
    ChainTail(r.model, at, chain);
    assert chain == [at] + chain[1..];
    if |chain| > 1 {
      OnChain(r, chain[1], chain[1..], declared);
    }
  }

  lemma LoadIs(r: Resolver, at: ScopeId, chain: seq<ScopeId>, wanted: string, i: nat, m: ModuleIndex)
    requires r.Valid() && at < |r.model.scopes| && IsChain(r.model, at, chain) && i < |r.model.loads|
    ensures LoadOpens(r, chain, wanted, i, m) <==>
      r.UsingModule(r.model.loads[i], at) == Some(m) && ModuleExports(m, wanted)
  {
    var load := r.model.loads[i];
    OpensIs(r, load.leadingDots, load.components, m);
    OffersIs(m, wanted);
    OnChain(r, at, chain, load.scope);
    hide Opens, Exposes, ModuleExports, IsChain, Resolver.Library, Resolver.Reaches;
  }

  lemma UsingIs(r: Resolver, usings: seq<ModuleUsing>, wanted: string, i: nat, m: ModuleIndex)
    requires i < |usings|
    ensures UsingOpens(r, usings, wanted, i, m) <==> r.ResolveUsing(usings[i]) == Some(m) && ModuleExports(m, wanted)
  {
    OpensIs(r, usings[i].leadingDots, usings[i].components, m);
    OffersIs(m, wanted);
    hide Opens, Exposes, ModuleExports, Resolver.Library;
  }

  /** What the file's clauses from `n` on give, when those before give nothing. */
  lemma {:induction false} LoadsAre(r: Resolver, at: ScopeId, chain: seq<ScopeId>, wanted: string, n: nat)
    returns (i: nat, m: ModuleIndex)
    requires r.Valid() && at < |r.model.scopes| && IsChain(r.model, at, chain) && n <= |r.model.loads|
    requires NoLoadBefore(r, chain, wanted, n)
    ensures var p := r.FirstLoad(r.model.loads[n..], at, wanted);
      if i < |r.model.loads| then FirstLoadIs(r, chain, wanted, i, m) && p == Some(Provided(r.model.loads[i].components, m))
      else NoLoadBefore(r, chain, wanted, |r.model.loads|) && p == None
    decreases |r.model.loads| - n
  {
    hide IsChain, LoadOpens, Resolver.UsingModule, ModuleExports;
    i := n;
    if n == |r.model.loads| {
      m := NO_MODULE;
    } else {
      var loads := r.model.loads;
      assert loads[n..][0] == loads[n] && loads[n..][1..] == loads[n + 1..];
      forall x
        ensures LoadOpens(r, chain, wanted, n, x) <==> r.UsingModule(loads[n], at) == Some(x) && ModuleExports(x, wanted)
      {
        LoadIs(r, at, chain, wanted, n, x);
      }
      var there := r.UsingModule(loads[n], at);
      if there.Some? && ModuleExports(there.value, wanted) {
        m := there.value;
      } else {
        i, m := LoadsAre(r, at, chain, wanted, n + 1);
      }
    }
  }

  const NO_MODULE: ModuleIndex := ModuleIndex("", [], [], [], [], [], [], [], [])

  lemma {:induction false} UsingsAre(r: Resolver, usings: seq<ModuleUsing>, wanted: string, n: nat)
    returns (i: nat, m: ModuleIndex)
    requires n <= |usings| && NoUsingBefore(r, usings, wanted, n)
    ensures var p := r.FirstUsing(usings[n..], wanted);
      if i < |usings| then FirstUsingIs(r, usings, wanted, i, m) && p == Some(Provided(usings[i].components, m))
      else NoUsingBefore(r, usings, wanted, |usings|) && p == None
    decreases |usings| - n
  {
    hide UsingOpens, Resolver.ResolveUsing, ModuleExports;
    i := n;
    if n == |usings| {
      m := NO_MODULE;
    } else {
      assert usings[n..][0] == usings[n] && usings[n..][1..] == usings[n + 1..];
      forall x
        ensures UsingOpens(r, usings, wanted, n, x) <==> r.ResolveUsing(usings[n]) == Some(x) && ModuleExports(x, wanted)
      {
        UsingIs(r, usings, wanted, n, x);
      }
      var there := r.ResolveUsing(usings[n]);
      if there.Some? && ModuleExports(there.value, wanted) {
        m := there.value;
      } else {
        i, m := UsingsAre(r, usings, wanted, n + 1);
      }
    }
  }

  /** What a clause gives: its path and the module it opens. */
  ghost predicate LoadGives(r: Resolver, chain: seq<ScopeId>, wanted: string, p: Provided) {
    exists i: nat :: FirstLoadIs(r, chain, wanted, i, p.mod) && p.components == r.model.loads[i].components
  }

  ghost predicate NoLoadGives(r: Resolver, chain: seq<ScopeId>, wanted: string) {
    forall i: nat, m :: !LoadOpens(r, chain, wanted, i, m)
  }

  ghost predicate UsingGives(r: Resolver, usings: seq<ModuleUsing>, wanted: string, p: Provided) {
    exists i: nat :: FirstUsingIs(r, usings, wanted, i, p.mod) && p.components == usings[i].components
  }

  ghost predicate NoUsingGives(r: Resolver, usings: seq<ModuleUsing>, wanted: string) {
    forall i: nat, m :: !UsingOpens(r, usings, wanted, i, m)
  }

  lemma LoadRule(r: Resolver, at: ScopeId, chain: seq<ScopeId>, wanted: string)
    requires r.Valid() && at < |r.model.scopes| && IsChain(r.model, at, chain)
    ensures forall p :: r.FirstLoad(r.model.loads, at, wanted) == Some(p) <==> LoadGives(r, chain, wanted, p)
    ensures r.FirstLoad(r.model.loads, at, wanted) == None <==> NoLoadGives(r, chain, wanted)
  {
    var i, m := LoadsAre(r, at, chain, wanted, 0);
    assert r.model.loads[0..] == r.model.loads;
    forall j: nat, x
      ensures LoadOpens(r, chain, wanted, j, x) ==> j < |r.model.loads|
    {
    }
    if i < |r.model.loads| {
      SameLoad(r, chain, wanted, i, m);
    }
    hide IsChain, LoadOpens, Resolver.FirstLoad;
    if i < |r.model.loads| {
      assert FirstLoadIs(r, chain, wanted, i, m);
    }
  }

  lemma SameLoad(r: Resolver, chain: seq<ScopeId>, wanted: string, i: nat, m: ModuleIndex)
    requires FirstLoadIs(r, chain, wanted, i, m)
    ensures forall p :: LoadGives(r, chain, wanted, p) <==> p == Provided(r.model.loads[i].components, m)
  {
    forall p | LoadGives(r, chain, wanted, p)
      ensures p == Provided(r.model.loads[i].components, m)
    {
      var j: nat :| FirstLoadIs(r, chain, wanted, j, p.mod) && p.components == r.model.loads[j].components;
      assert i == j by {
        hide LoadOpens;
      }
      var load := r.model.loads[i];
      OpensIs(r, load.leadingDots, load.components, m);
      OpensIs(r, load.leadingDots, load.components, p.mod);
    }
  }

  lemma UsingRule(r: Resolver, usings: seq<ModuleUsing>, wanted: string)
    ensures forall p :: r.FirstUsing(usings, wanted) == Some(p) <==> UsingGives(r, usings, wanted, p)
    ensures r.FirstUsing(usings, wanted) == None <==> NoUsingGives(r, usings, wanted)
  {
    var i, m := UsingsAre(r, usings, wanted, 0);
    assert usings[0..] == usings;
    forall j: nat, x
      ensures UsingOpens(r, usings, wanted, j, x) ==> j < |usings|
    {
    }
    if i < |usings| {
      SameUsing(r, usings, wanted, i, m);
    }
    hide UsingOpens, Resolver.FirstUsing;
    if i < |usings| {
      assert FirstUsingIs(r, usings, wanted, i, m);
    }
  }

  lemma SameUsing(r: Resolver, usings: seq<ModuleUsing>, wanted: string, i: nat, m: ModuleIndex)
    requires FirstUsingIs(r, usings, wanted, i, m)
    ensures forall p :: UsingGives(r, usings, wanted, p) <==> p == Provided(usings[i].components, m)
  {
    forall p | UsingGives(r, usings, wanted, p)
      ensures p == Provided(usings[i].components, m)
    {
      var j: nat :| FirstUsingIs(r, usings, wanted, j, p.mod) && p.components == usings[j].components;
      assert i == j by {
        hide UsingOpens;
      }
      OpensIs(r, usings[i].leadingDots, usings[i].components, m);
      OpensIs(r, usings[i].leadingDots, usings[i].components, p.mod);
    }
  }

  // ---- The workspace module around a position ----

  /** The scopes around one, from the one without a parent inwards. */
  ghost predicate IsLine(m: SemanticModel, at: ScopeId, line: seq<ScopeId>) {
    && line != [] && line[|line| - 1] == at
    && (forall i :: 0 <= i < |line| ==> line[i] < |m.scopes|)
    && (forall i :: 0 <= i < |line| - 1 ==> m.scopes[line[i + 1]].parent == Some(line[i]))
    && m.scopes[line[0]].parent == None
  }

  predicate IsNamedModule(m: SemanticModel, id: ScopeId) {
    id < |m.scopes| && m.scopes[id].kind.Module? && m.scopes[id].moduleName.Some?
  }

  /** The picks are named modules with the names given, in rising order. */
  ghost predicate Picked(m: SemanticModel, line: seq<ScopeId>, picks: seq<nat>, path: ModulePath) {
    && |picks| == |path|
    && (forall i :: 0 <= i < |picks| ==> PickIs(m, line, picks[i], path[i]))
    && forall i, j :: 0 <= i < j < |picks| ==> picks[i] < picks[j]
  }

  ghost predicate PickIs(m: SemanticModel, line: seq<ScopeId>, pick: nat, name: string) {
    pick < |line| && IsNamedModule(m, line[pick]) && m.scopes[line[pick]].moduleName == Some(name)
  }

  ghost predicate AllPicked(m: SemanticModel, line: seq<ScopeId>, picks: seq<nat>) {
    forall i: nat :: i < |line| && IsNamedModule(m, line[i]) ==> i in picks
  }

  /** The names of the modules on a line, in its order. */
  ghost predicate NamesAlong(m: SemanticModel, line: seq<ScopeId>, picks: seq<nat>, path: ModulePath) {
    Picked(m, line, picks, path) && AllPicked(m, line, picks)
  }

  ghost predicate ModulePathIs(m: SemanticModel, at: ScopeId, path: ModulePath) {
    exists line, picks :: IsLine(m, at, line) && NamesAlong(m, line, picks, path)
  }

  lemma PickedFurtherIn(m: SemanticModel, line: seq<ScopeId>, picks: seq<nat>, path: ModulePath, at: ScopeId)
    requires Picked(m, line, picks, path)
    ensures Picked(m, line + [at], picks, path)
    ensures IsNamedModule(m, at) ==> Picked(m, line + [at], picks + [|line|], path + [m.scopes[at].moduleName.value])
  {
    hide IsNamedModule;
    forall i | 0 <= i < |picks|
      ensures PickIs(m, line + [at], picks[i], path[i])
    {
      assert PickIs(m, line, picks[i], path[i]);
    }
    if IsNamedModule(m, at) {
      NamedAtEnd(m, line, at);
    }
    hide PickIs;
  }

  lemma NamedAtEnd(m: SemanticModel, line: seq<ScopeId>, at: ScopeId)
    requires IsNamedModule(m, at)
    ensures PickIs(m, line + [at], |line|, m.scopes[at].moduleName.value)
  {
  }

  lemma NamesFurtherIn(m: SemanticModel, line: seq<ScopeId>, picks: seq<nat>, path: ModulePath, at: ScopeId)
    requires at < |m.scopes| && NamesAlong(m, line, picks, path)
    ensures NamesAlong(m, line + [at], if IsNamedModule(m, at) then picks + [|line|] else picks, path + m.OwnModule(at))
  {
    PickedFurtherIn(m, line, picks, path, at);
    hide Picked;
    var more := if IsNamedModule(m, at) then picks + [|line|] else picks;
    forall i: nat | i < |line| + 1 && IsNamedModule(m, (line + [at])[i])
      ensures i in more
    {
      assert i < |line| ==> i in picks;
    }
    assert path + [] == path;
  }

  lemma {:induction false} LineOf(m: SemanticModel, at: ScopeId) returns (line: seq<ScopeId>, picks: seq<nat>)
    requires m.Valid() && at < |m.scopes|
    ensures IsLine(m, at, line) && NamesAlong(m, line, picks, m.EnclosingModulePath(at))
    decreases at
  {
    hide NamesAlong;
    if m.scopes[at].parent == None {
      NothingAlong(m);
      NamesFurtherIn(m, [], [], [], at);
      line, picks := [] + [at], if IsNamedModule(m, at) then [] + [0] else [];
    } else {
      var outer, before := LineOf(m, m.scopes[at].parent.value);
      NamesFurtherIn(m, outer, before, m.EnclosingModulePath(m.scopes[at].parent.value), at);
      line, picks := outer + [at], if IsNamedModule(m, at) then before + [|outer|] else before;
    }
  }

  lemma NothingAlong(m: SemanticModel)
    ensures NamesAlong(m, [], [], [])
  {
  }

  lemma LineTail(m: SemanticModel, at: ScopeId, line: seq<ScopeId>)
    requires IsLine(m, at, line)
    ensures |line| == 1 <==> m.scopes[at].parent == None
    ensures |line| > 1 ==> m.scopes[at].parent == Some(line[|line| - 2]) && IsLine(m, line[|line| - 2], line[..|line| - 1])
    ensures line == line[..|line| - 1] + [at]
  {
    var i := |line| - 2;
    assert i >= 0 ==> m.scopes[line[i + 1]].parent == Some(line[i]);
  }

  lemma {:induction false} LineIsUnique(m: SemanticModel, at: ScopeId, a: seq<ScopeId>, b: seq<ScopeId>)
    requires IsLine(m, at, a) && IsLine(m, at, b)
    ensures a == b
    decreases |a|
  {
    LineTail(m, at, a);
    LineTail(m, at, b);
    if |a| > 1 {
      LineIsUnique(m, a[|a| - 2], a[..|a| - 1], b[..|b| - 1]);
    }
  }

  /** A line has one list of names. */
  lemma {:induction false} NamesAreUnique(m: SemanticModel, line: seq<ScopeId>, a: seq<nat>, p: ModulePath, b: seq<nat>, q: ModulePath)
    requires NamesAlong(m, line, a, p) && NamesAlong(m, line, b, q)
    ensures p == q
    decreases |line|
  {
    if line == [] {
      NothingPicked(m, a, p);
      NothingPicked(m, b, q);
    } else if IsNamedModule(m, line[|line| - 1]) {
      LastPick(m, line, a, p);
      LastPick(m, line, b, q);
      hide NamesAlong;
      NamesAreUnique(m, line[..|line| - 1], a[..|a| - 1], p[..|p| - 1], b[..|b| - 1], q[..|q| - 1]);
    } else {
      NoLastPick(m, line, a, p);
      NoLastPick(m, line, b, q);
      hide NamesAlong;
      NamesAreUnique(m, line[..|line| - 1], a, p, b, q);
    }
  }

  lemma NothingPicked(m: SemanticModel, picks: seq<nat>, path: ModulePath)
    requires NamesAlong(m, [], picks, path)
    ensures path == []
  {
    assert path != [] ==> PickIs(m, [], picks[0], path[0]);
  }

  lemma LastPick(m: SemanticModel, line: seq<ScopeId>, picks: seq<nat>, path: ModulePath)
    requires NamesAlong(m, line, picks, path) && line != [] && IsNamedModule(m, line[|line| - 1])
    ensures picks != [] && |path| == |picks|
    ensures path == path[..|path| - 1] + [m.scopes[line[|line| - 1]].moduleName.value]
    ensures NamesAlong(m, line[..|line| - 1], picks[..|picks| - 1], path[..|path| - 1])
  {
    var n := |line| - 1;
    assert n in picks;
    LastIsPicked(m, line, picks, path);
    hide IsNamedModule, PickIs;
    forall i: nat | i < n && IsNamedModule(m, line[..n][i])
      ensures i in picks[..|picks| - 1]
    {
      assert i in picks;
      var j :| 0 <= j < |picks| && picks[j] == i;
      assert picks[..|picks| - 1][j] == i;
    }
  }

  lemma LastIsPicked(m: SemanticModel, line: seq<ScopeId>, picks: seq<nat>, path: ModulePath)
    requires Picked(m, line, picks, path) && line != [] && |line| - 1 in picks
    ensures picks != [] && picks[|picks| - 1] == |line| - 1
    ensures IsNamedModule(m, line[|line| - 1]) && path[|path| - 1] == m.scopes[line[|line| - 1]].moduleName.value
    ensures Picked(m, line[..|line| - 1], picks[..|picks| - 1], path[..|path| - 1])
  {
    var k :| 0 <= k < |picks| && picks[k] == |line| - 1;
    assert forall i :: 0 <= i < |picks| ==> PickIs(m, line, picks[i], path[i]);
  }

  lemma NoLastPick(m: SemanticModel, line: seq<ScopeId>, picks: seq<nat>, path: ModulePath)
    requires NamesAlong(m, line, picks, path) && line != [] && !IsNamedModule(m, line[|line| - 1])
    ensures NamesAlong(m, line[..|line| - 1], picks, path)
  {
  }

  /** A scope has one module path. */
  lemma ModulePathIsUnique(m: SemanticModel, at: ScopeId, path: ModulePath)
    requires m.Valid() && at < |m.scopes|
    ensures ModulePathIs(m, at, path) <==> path == m.EnclosingModulePath(at)
  {
    var line, picks := LineOf(m, at);
    if ModulePathIs(m, at, path) {
      var other, some :| IsLine(m, at, other) && NamesAlong(m, other, some, path);
      hide NamesAlong;
      LineIsUnique(m, at, line, other);
      NamesAreUnique(m, line, picks, m.EnclosingModulePath(at), some, path);
    }
  }

  /** The module a position belongs to, at the end of the path of the file's host
      module and the modules around the position. */
  ghost predicate HostIs(r: Resolver, path: ModulePath, m: ModuleIndex) {
    r.workspace.Some? && LeadsTo(r.workspace.value.pkg.root, r.workspace.value.host + path, m)
  }

  lemma HostRule(r: Resolver, offset: nat, m: ModuleIndex)
    requires r.Valid()
    ensures HostIs(r, r.model.EnclosingModulePath(r.model.ScopeAt(offset)), m) <==>
      r.workspace.Some? && r.HostModule(r.workspace.value, offset) == Some(m)
  {
    if r.workspace.Some? {
      PathIs(r.workspace.value.pkg.root, r.FullModulePath(r.workspace.value, r.model.ScopeAt(offset)), m);
    }
    hide LeadsTo;
  }

  // ---- Who exports a name ----

  /** Base, or Core when Base is there and does not export the name. */
  ghost predicate SystemGives(r: Resolver, wanted: string, p: Provided) {
    && "Base" in r.packages
    && var base := r.packages["Base"].root;
       if Exposes(base, wanted) then p == Provided(["Base"], base)
       else "Core" in r.packages && Exposes(r.packages["Core"].root, wanted) && p == Provided(["Core"], r.packages["Core"].root)
  }

  ghost predicate SiblingGives(r: Resolver, path: ModulePath, wanted: string, p: Provided) {
    exists host :: HostIs(r, path, host) && UsingGives(r, host.usings, wanted, p)
  }

  ghost predicate NoSiblingGives(r: Resolver, path: ModulePath, wanted: string) {
    forall host :: HostIs(r, path, host) ==> NoUsingGives(r, host.usings, wanted)
  }

  lemma SystemRule(r: Resolver, wanted: string)
    ensures forall p :: r.SystemExport(wanted) == Some(p) <==> SystemGives(r, wanted, p)
  {
    if "Base" in r.packages {
      OffersIs(r.packages["Base"].root, wanted);
    }
    if "Core" in r.packages {
      OffersIs(r.packages["Core"].root, wanted);
    }
    hide ModuleExports, Exposes;
    assert ["Base", "Core"][1..] == ["Core"] && ["Core"][1..] == [];
    assert r.FirstSystem([], wanted) == None;
    var core := r.FirstSystem(["Core"], wanted);
    assert core.Some? <==> "Core" in r.packages && ModuleExports(r.packages["Core"].root, wanted);
    assert core.Some? ==> core == Some(Provided(["Core"], r.packages["Core"].root));
  }

  lemma SiblingRule(r: Resolver, offset: nat, wanted: string)
    requires r.Valid()
    ensures var path := r.model.EnclosingModulePath(r.model.ScopeAt(offset));
      var p := if r.workspace.Some? then r.WorkspaceUsingExport(r.workspace.value, wanted, offset) else None;
      && (forall x :: p == Some(x) <==> SiblingGives(r, path, wanted, x))
      && (p == None <==> NoSiblingGives(r, path, wanted))
  {
    forall m
      ensures HostIs(r, r.model.EnclosingModulePath(r.model.ScopeAt(offset)), m) <==>
        r.workspace.Some? && r.HostModule(r.workspace.value, offset) == Some(m)
    {
      HostRule(r, offset, m);
    }
    if r.workspace.Some? && r.HostModule(r.workspace.value, offset).Some? {
      UsingRule(r, r.HostModule(r.workspace.value, offset).value.usings, wanted);
    }
    hide HostIs, UsingGives, NoUsingGives, Resolver.HostModule, Resolver.FirstUsing;
  }

  /** Who exports a name to a position, whatever masks it there. */
  ghost predicate ProviderIs(r: Resolver, chain: seq<ScopeId>, path: ModulePath, wanted: string, p: Provided) {
    || LoadGives(r, chain, wanted, p)
    || (NoLoadGives(r, chain, wanted) && SiblingGives(r, path, wanted, p))
    || (NoLoadGives(r, chain, wanted) && NoSiblingGives(r, path, wanted) && SystemGives(r, wanted, p))
  }

  // ---- The rules ----

  predicate IsTypeOrConst(m: ModuleIndex, wanted: string) {
    wanted in m.types || wanted in m.consts
  }

  ghost predicate HasGroup(m: ModuleIndex, wanted: string) {
    exists i :: 0 <= i < |m.functions| && m.functions[i].name == wanted
  }

  ghost predicate HasWrittenMethod(m: ModuleIndex, wanted: string) {
    exists i :: 0 <= i < |m.functions| && m.functions[i].name == wanted && false in m.functions[i].generated
  }

  /** A module defines a macro it lists; and a value that is a type or constant, a
      function with a method that is not generated, or a function that no exported
      type or constant stands behind. */
  ghost predicate DefinesHere(r: Resolver, chain: seq<ScopeId>, path: ModulePath, m: ModuleIndex, wanted: string, ns: Namespace) {
    match ns
    case Macro => wanted in m.macros
    case Value =>
      || IsTypeOrConst(m, wanted)
      || HasWrittenMethod(m, wanted)
      || (HasGroup(m, wanted) && forall p :: ProviderIs(r, chain, path, wanted, p) ==> !IsTypeOrConst(p.mod, wanted))
  }

  /** The workspace module has the name itself: by definition, or as its own name. */
  ghost predicate HasItself(r: Resolver, chain: seq<ScopeId>, path: ModulePath, m: ModuleIndex, wanted: string, ns: Namespace) {
    DefinesHere(r, chain, path, m, wanted, ns) || (ns.Value? && wanted == m.name)
  }

  ghost predicate HostHas(r: Resolver, chain: seq<ScopeId>, path: ModulePath, wanted: string, ns: Namespace) {
    exists m :: HostIs(r, path, m) && HasItself(r, chain, path, m, wanted, ns)
  }

  ghost predicate HostImports(r: Resolver, path: ModulePath, wanted: string) {
    exists m :: HostIs(r, path, m) && wanted in m.importedNames
  }

  /** No binding of the file and nothing in the workspace module has the name. */
  ghost predicate Free(r: Resolver, chain: seq<ScopeId>, path: ModulePath, wanted: string, ns: Namespace) {
    && Unbound(r.model, chain, wanted, ns)
    && !HostHas(r, chain, path, wanted, ns) && !HostImports(r, path, wanted)
  }

  ghost predicate NamesPath(p: Provided, mod: string) {
    p.components != [] && mod == Text.Join(p.components, '.')
  }

  /** The answer that the tiers give, the first of them that has the name. */
  ghost predicate Follows(r: Resolver, chain: seq<ScopeId>, path: ModulePath, wanted: string, ns: Namespace, answer: Resolution) {
    match answer
    case ToBinding(b) => BoundTo(r.model, chain, wanted, ns, b)
    case ToWorkspace(full, name) =>
      && name == wanted && Unbound(r.model, chain, wanted, ns) && HostHas(r, chain, path, wanted, ns)
      && r.workspace.Some? && full == r.workspace.value.host + path
    case ToWorkspaceImport(name) =>
      && name == wanted && Unbound(r.model, chain, wanted, ns) && !HostHas(r, chain, path, wanted, ns)
      && HostImports(r, path, wanted)
    case ToUsing(mod, name) =>
      && name == wanted && Free(r, chain, path, wanted, ns)
      && ((exists p :: LoadGives(r, chain, wanted, p) && NamesPath(p, mod))
          || (NoLoadGives(r, chain, wanted) && exists p :: SiblingGives(r, path, wanted, p) && NamesPath(p, mod)))
    case ToSystem(mod, name) =>
      && name == wanted && Free(r, chain, path, wanted, ns)
      && NoLoadGives(r, chain, wanted) && NoSiblingGives(r, path, wanted)
      && exists p :: SystemGives(r, wanted, p) && p.components == [mod]
    case Unresolved =>
      && Free(r, chain, path, wanted, ns)
      && NoLoadGives(r, chain, wanted) && NoSiblingGives(r, path, wanted)
      && forall p :: !SystemGives(r, wanted, p)
  }

  lemma {:induction false} JoinIs(components: seq<string>)
    requires components != []
    ensures Join(components) == Text.Join(components, '.')
  {
    if |components| > 1 {
      JoinIs(components[1..]);
    }
  }

  lemma ProviderRule(r: Resolver, offset: nat, chain: seq<ScopeId>, wanted: string)
    requires r.Valid() && IsChain(r.model, r.model.ScopeAt(offset), chain)
    ensures forall p :: r.ExportProvider(wanted, offset) == Some(p) <==>
      ProviderIs(r, chain, r.model.EnclosingModulePath(r.model.ScopeAt(offset)), wanted, p)
  {
    LoadRule(r, r.model.ScopeAt(offset), chain, wanted);
    SiblingRule(r, offset, wanted);
    SystemRule(r, wanted);
    hide LoadGives, NoLoadGives, SiblingGives, NoSiblingGives, SystemGives, Resolver.FirstLoad, Resolver.WorkspaceUsingExport,
      Resolver.SystemExport, SemanticModel.ScopeAt, SemanticModel.EnclosingModulePath, IsChain;
  }

  lemma DefinesRule(r: Resolver, offset: nat, chain: seq<ScopeId>, m: ModuleIndex, wanted: string, ns: Namespace)
    requires r.Valid() && IsChain(r.model, r.model.ScopeAt(offset), chain)
    ensures r.WorkspaceDefines(m, wanted, offset, ns) <==>
      DefinesHere(r, chain, r.model.EnclosingModulePath(r.model.ScopeAt(offset)), m, wanted, ns)
  {
    ProviderRule(r, offset, chain, wanted);
    hide ProviderIs, Resolver.ExportProvider, SemanticModel.ScopeAt, SemanticModel.EnclosingModulePath, IsChain;
    var p := r.ExportProvider(wanted, offset);
    assert p.Some? ==> ProviderIs(r, chain, r.model.EnclosingModulePath(r.model.ScopeAt(offset)), wanted, p.value);
  }

  /** The workspace tier answers for what the module has itself, then for what it
      imports, and for nothing else. */
  lemma HostTierRule(r: Resolver, offset: nat, chain: seq<ScopeId>, wanted: string, ns: Namespace)
    requires r.Valid() && IsChain(r.model, r.model.ScopeAt(offset), chain)
    ensures var path := r.model.EnclosingModulePath(r.model.ScopeAt(offset));
      var t := if r.workspace.Some? then r.WorkspaceTier(r.workspace.value, wanted, offset, ns) else None;
      if HostHas(r, chain, path, wanted, ns) then
        r.workspace.Some? && t == Some(ToWorkspace(r.workspace.value.host + path, wanted))
      else if HostImports(r, path, wanted) then t == Some(ToWorkspaceImport(wanted))
      else t == None
  {
    var path := r.model.EnclosingModulePath(r.model.ScopeAt(offset));
    forall m
      ensures HostIs(r, path, m) <==> r.workspace.Some? && r.HostModule(r.workspace.value, offset) == Some(m)
    {
      HostRule(r, offset, m);
    }
    if r.workspace.Some? && r.HostModule(r.workspace.value, offset).Some? {
      DefinesRule(r, offset, chain, r.HostModule(r.workspace.value, offset).value, wanted, ns);
    }
    hide HostIs, DefinesHere, Resolver.HostModule, Resolver.WorkspaceDefines, IsChain, SemanticModel.ScopeAt,
      SemanticModel.EnclosingModulePath;
  }

  /** For every name, position and namespace, `Resolve` gives the one answer that
      follows the rules, on the chain of scopes and the module path of the place. */
  lemma ResolveFollowsRules(r: Resolver, name: string, offset: nat, ns: Namespace)
    returns (chain: seq<ScopeId>, path: ModulePath, wanted: string)
    requires r.Valid()
    ensures IsChain(r.model, r.model.ScopeAt(offset), chain) && ModulePathIs(r.model, r.model.ScopeAt(offset), path)
    ensures wanted == if ns.Macro? then "@" + name else name
    ensures forall a :: r.Resolve(name, offset, ns) == a <==> Follows(r, chain, path, wanted, ns, a)
  {
    var at := r.model.ScopeAt(offset);
    wanted := if ns.Macro? then "@" + name else name;
    chain := ChainOf(r.model, at);
    var line, picks := LineOf(r.model, at);
    path := r.model.EnclosingModulePath(at);
    TiersFollow(r, name, wanted, offset, ns, chain, path);
    hide Follows, Resolver.Resolve, IsChain;
  }

  lemma PathsNamed(r: Resolver, chain: seq<ScopeId>, path: ModulePath, wanted: string)
    ensures forall p :: LoadGives(r, chain, wanted, p) || SiblingGives(r, path, wanted, p) ==> NamesPath(p, Join(p.components))
  {
    forall p | LoadGives(r, chain, wanted, p) || SiblingGives(r, path, wanted, p)
      ensures NamesPath(p, Join(p.components))
    {
      assert p.components != [] by {
        hide LeadsTo, HostIs;
      }
      JoinIs(p.components);
    }
  }

  lemma TiersFollow(r: Resolver, name: string, wanted: string, offset: nat, ns: Namespace, chain: seq<ScopeId>, path: ModulePath)
    requires r.Valid() && IsChain(r.model, r.model.ScopeAt(offset), chain)
    requires path == r.model.EnclosingModulePath(r.model.ScopeAt(offset)) && wanted == WantedName(name, ns)
    ensures forall a :: r.Resolve(name, offset, ns) == a <==> Follows(r, chain, path, wanted, ns, a)
  {
    hide Follows, IsChain, SemanticModel.ScopeAt, SemanticModel.EnclosingModulePath;
    forall a
      ensures r.Resolve(name, offset, ns) == a <==> Follows(r, chain, path, wanted, ns, a)
    {
      if a.ToBinding? || a.ToWorkspace? || a.ToWorkspaceImport? {
        EarlyTiersFollow(r, name, wanted, offset, ns, chain, path, a);
      } else if a.ToUsing? {
        UsingTiersFollow(r, name, wanted, offset, ns, chain, path, a);
      } else {
        LateTiersFollow(r, name, wanted, offset, ns, chain, path, a);
      }
    }
  }

  lemma EarlyTiersFollow(r: Resolver, name: string, wanted: string, offset: nat, ns: Namespace, chain: seq<ScopeId>,
                         path: ModulePath, a: Resolution)
    requires r.Valid() && IsChain(r.model, r.model.ScopeAt(offset), chain)
    requires path == r.model.EnclosingModulePath(r.model.ScopeAt(offset)) && wanted == WantedName(name, ns)
    requires a.ToBinding? || a.ToWorkspace? || a.ToWorkspaceImport?
    ensures r.Resolve(name, offset, ns) == a <==> Follows(r, chain, path, wanted, ns, a)
  {
    BindingRule(r, r.model.ScopeAt(offset), chain, wanted, ns);
    HostTierRule(r, offset, chain, wanted, ns);
    hide BoundTo, Unbound, HostHas, HostImports, Join, WantedName, LoadGives, NoLoadGives, SiblingGives, NoSiblingGives, SystemGives,
      Resolver.BindingFrom, Resolver.FirstLoad, Resolver.WorkspaceTier, Resolver.WorkspaceUsingExport, Resolver.SystemExport,
      SemanticModel.ScopeAt, SemanticModel.EnclosingModulePath, IsChain;
  }

  lemma UsingTiersFollow(r: Resolver, name: string, wanted: string, offset: nat, ns: Namespace, chain: seq<ScopeId>,
                         path: ModulePath, a: Resolution)
    requires r.Valid() && IsChain(r.model, r.model.ScopeAt(offset), chain)
    requires path == r.model.EnclosingModulePath(r.model.ScopeAt(offset)) && wanted == WantedName(name, ns) && a.ToUsing?
    ensures r.Resolve(name, offset, ns) == a <==> Follows(r, chain, path, wanted, ns, a)
  {
    BindingRule(r, r.model.ScopeAt(offset), chain, wanted, ns);
    HostTierRule(r, offset, chain, wanted, ns);
    LoadRule(r, r.model.ScopeAt(offset), chain, wanted);
    SiblingRule(r, offset, wanted);
    PathsNamed(r, chain, path, wanted);
    hide BoundTo, Unbound, HostHas, HostImports, LoadGives, NoLoadGives, SiblingGives, NoSiblingGives, SystemGives, Join, WantedName,
      Resolver.BindingFrom, Resolver.FirstLoad, Resolver.WorkspaceTier, Resolver.WorkspaceUsingExport, Resolver.SystemExport,
      SemanticModel.ScopeAt, SemanticModel.EnclosingModulePath, IsChain;
  }

  lemma LateTiersFollow(r: Resolver, name: string, wanted: string, offset: nat, ns: Namespace, chain: seq<ScopeId>,
                        path: ModulePath, a: Resolution)
    requires r.Valid() && IsChain(r.model, r.model.ScopeAt(offset), chain)
    requires path == r.model.EnclosingModulePath(r.model.ScopeAt(offset)) && wanted == WantedName(name, ns)
    requires a.ToSystem? || a.Unresolved?
    ensures r.Resolve(name, offset, ns) == a <==> Follows(r, chain, path, wanted, ns, a)
  {
    BindingRule(r, r.model.ScopeAt(offset), chain, wanted, ns);
    HostTierRule(r, offset, chain, wanted, ns);
    LoadRule(r, r.model.ScopeAt(offset), chain, wanted);
    SiblingRule(r, offset, wanted);
    SystemRule(r, wanted);
    hide BoundTo, Unbound, HostHas, HostImports, LoadGives, NoLoadGives, SiblingGives, NoSiblingGives, SystemGives, Join, WantedName,
      Resolver.BindingFrom, Resolver.FirstLoad, Resolver.WorkspaceTier, Resolver.WorkspaceUsingExport, Resolver.SystemExport,
      SemanticModel.ScopeAt, SemanticModel.EnclosingModulePath, IsChain;
  }
}
