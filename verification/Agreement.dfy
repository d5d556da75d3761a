/** `Resolve` and `Visible` side by side (src/resolve.rs). Both follow the same
    list of offers, the one by its first entry under a name, the other by all of
    them, so they agree on a name unless `Resolve` has left that list: for the
    enclosing module's own name, for Core without Base, and for a macro's spelling
    looked up as a value. */
module Agreement {
  import opened Wrappers
  import opened SemanticModel
  import opened Resolver
  import opened Visibility

  function Find(offers: seq<Offer>, wanted: string): Option<Offer> {
    if offers == [] then None else if offers[0].name == wanted then Some(offers[0]) else Find(offers[1..], wanted)
  }

  function Listed(candidates: seq<Candidate>, wanted: string): seq<Candidate> {
    if candidates == [] then []
    else
      Listed(candidates[..|candidates| - 1], wanted)
      + if candidates[|candidates| - 1].name == wanted then [candidates[|candidates| - 1]] else []
  }

  function OneShown(o: Option<Offer>): seq<Candidate> {
    if o.None? then [] else [Shown(o.value)]
  }

  lemma {:induction false} FindConcat(a: seq<Offer>, b: seq<Offer>, wanted: string)
    ensures Find(a + b, wanted) == if Find(a, wanted).Some? then Find(a, wanted) else Find(b, wanted)
  {
    if a == [] {
      assert a + b == b;
    } else {
      assert (a + b)[0] == a[0] && (a + b)[1..] == a[1..] + b;
      FindConcat(a[1..], b, wanted);
    }
  }

  lemma {:induction false} FindNamed(names: seq<string>, p: Provider, wanted: string)
    ensures Find(Named(names, p), wanted) == if wanted in names then Some(Offer(wanted, p)) else None
  {
    if names != [] {
      FindNamed(names[1..], p, wanted);
      FindConcat([Offer(names[0], p)], Named(names[1..], p), wanted);
    }
  }

  lemma {:induction false} FindIsName(offers: seq<Offer>, wanted: string)
    ensures Find(offers, wanted).Some? <==> wanted in Names(offers)
    ensures Find(offers, wanted).Some? ==> Find(offers, wanted).value.name == wanted
  {
    if offers != [] {
      FindIsName(offers[1..], wanted);
      assert Names(offers) == {offers[0].name} + Names(offers[1..]);
    }
  }

  lemma ListedSnoc(candidates: seq<Candidate>, c: Candidate, wanted: string)
    ensures Listed(candidates + [c], wanted) ==
      if c.name == wanted then Listed(candidates, wanted) + [c] else Listed(candidates, wanted)
  {
    var more := candidates + [c];
    assert more[..|more| - 1] == candidates;
  }

  lemma ShownName(o: Offer)
    ensures Shown(o).name == o.name
  {
  }

  lemma UnmaskedSnoc(offers: seq<Offer>, o: Offer)
    ensures Unmasked(offers + [o]) == if o.name in Names(offers) then Unmasked(offers) else Unmasked(offers) + [Shown(o)]
  {
    var more := offers + [o];
    assert more[..|more| - 1] == offers;
    hide Names, Shown;
  }

  lemma FindSnoc(offers: seq<Offer>, o: Offer, wanted: string)
    ensures Find(offers + [o], wanted) ==
      if Find(offers, wanted).Some? then Find(offers, wanted) else if o.name == wanted then Some(o) else None
  {
    FindConcat(offers, [o], wanted);
  }

  /** The names shown are the names offered, each once, with the first offer. */
  lemma {:induction false} ListedIsFound(offers: seq<Offer>, wanted: string)
    ensures Listed(Unmasked(offers), wanted) == OneShown(Find(offers, wanted))
    decreases |offers|
  {
    if offers != [] {
      hide Names, Listed, Shown, Find, Unmasked;
      var before, o := offers[..|offers| - 1], offers[|offers| - 1];
      assert offers == before + [o];
      ListedIsFound(before, wanted);
      UnmaskedSnoc(before, o);
      FindSnoc(before, o, wanted);
      FindIsName(before, wanted);
      ListedSnoc(Unmasked(before), Shown(o), wanted);
      ShownName(o);
    }
  }

  // ---- Each tier's first offer is the tier's answer ----

  lemma {:induction false} FindScope(r: Resolver, bindings: seq<BindingId>, wanted: string, ns: Namespace)
    requires forall k :: 0 <= k < |bindings| ==> bindings[k] < |r.model.bindings|
    ensures var hit := r.LastNamed(bindings, wanted, ns);
      Find(ScopeOffers(r, bindings, ns), wanted) == if hit.None? then None else Some(Offer(wanted, FromBinding(hit.value)))
    decreases |bindings|
  {
    if bindings != [] {
      var b := bindings[|bindings| - 1];
      var name := NamespacedName(r.model.bindings[b], ns);
      FindScope(r, bindings[..|bindings| - 1], wanted, ns);
      hide NamespacedName;
      var here := if name.Some? then [Offer(name.value, FromBinding(b))] else [];
      FindConcat(here, ScopeOffers(r, bindings[..|bindings| - 1], ns), wanted);
    }
  }

  lemma {:induction false} FindBindings(r: Resolver, scope: ScopeId, wanted: string, ns: Namespace)
    requires r.Valid() && scope < |r.model.scopes|
    ensures var hit := r.BindingFrom(scope, wanted, ns);
      Find(BindingOffers(r, scope, ns), wanted) == if hit.None? then None else Some(Offer(wanted, FromBinding(hit.value)))
    decreases scope
  {
    var bindings := r.model.scopes[scope].bindings;
    var next := r.model.Outward(scope);
    FindScope(r, bindings, wanted, ns);
    if next.Some? {
      FindBindings(r, next.value, wanted, ns);
    }
    hide ScopeOffers;
    FindConcat(ScopeOffers(r, bindings, ns), if next.Some? then BindingOffers(r, next.value, ns) else [], wanted);
  }

  lemma {:induction false} ExportedAre(exports: seq<Export>, ns: Namespace, wanted: string)
    ensures wanted in ExportedNames(exports, ns) <==>
      InNamespace(wanted, ns) && exists i :: 0 <= i < |exports| && exports[i] == Export(wanted, true)
  {
    if exports != [] {
      ExportedAre(exports[1..], ns, wanted);
      hide InNamespace;
      if i :| 0 <= i < |exports| && exports[i] == Export(wanted, true) {
        assert i > 0 ==> exports[1..][i - 1] == Export(wanted, true);
      }
    }
  }

  lemma FindExports(m: ModuleIndex, p: Provider, ns: Namespace, wanted: string)
    ensures Find(Named(ExportedNames(m.exports, ns), p), wanted) ==
      if InNamespace(wanted, ns) && ModuleExports(m, wanted) then Some(Offer(wanted, p)) else None
  {
    ExportedAre(m.exports, ns, wanted);
    FindNamed(ExportedNames(m.exports, ns), p, wanted);
  }

  function ByProvided(p: Option<Provided>, wanted: string): Option<Offer> {
    if p.None? then None else Some(Offer(wanted, FromUsing(p.value.components)))
  }

  lemma {:induction false} FindLoads(r: Resolver, loads: seq<ModuleLoad>, at: ScopeId, wanted: string, ns: Namespace)
    requires r.Valid() && at < |r.model.scopes|
    ensures Find(LoadOffers(r, loads, at, ns), wanted) ==
      if InNamespace(wanted, ns) then ByProvided(r.FirstLoad(loads, at, wanted), wanted) else None
  {
    if loads != [] {
      FindLoads(r, loads[1..], at, wanted, ns);
      hide InNamespace, ExportedNames, Named, ModuleExports;
      var m := r.UsingModule(loads[0], at);
      var here := if m.None? then [] else Named(ExportedNames(m.value.exports, ns), FromUsing(loads[0].components));
      if m.Some? {
        FindExports(m.value, FromUsing(loads[0].components), ns, wanted);
      }
      FindConcat(here, LoadOffers(r, loads[1..], at, ns), wanted);
    }
  }

  lemma {:induction false} FindUsings(r: Resolver, usings: seq<ModuleUsing>, wanted: string, ns: Namespace)
    ensures Find(UsingOffers(r, usings, ns), wanted) ==
      if InNamespace(wanted, ns) then ByProvided(r.FirstUsing(usings, wanted), wanted) else None
  {
    if usings != [] {
      FindUsings(r, usings[1..], wanted, ns);
      hide InNamespace, ExportedNames, Named, ModuleExports;
      var m := r.ResolveUsing(usings[0]);
      var here := if m.None? then [] else Named(ExportedNames(m.value.exports, ns), FromUsing(usings[0].components));
      if m.Some? {
        FindExports(m.value, FromUsing(usings[0].components), ns, wanted);
      }
      FindConcat(here, UsingOffers(r, usings[1..], ns), wanted);
    }
  }

  predicate Exports(r: Resolver, package: string, wanted: string) {
    package in r.packages && ModuleExports(r.packages[package].root, wanted)
  }

  lemma FindSystem(r: Resolver, wanted: string, ns: Namespace)
    ensures Find(SystemOffers(r, ["Base", "Core"], ns), wanted) ==
      if !InNamespace(wanted, ns) then None
      else if Exports(r, "Base", wanted) then Some(Offer(wanted, FromSystem("Base")))
      else if Exports(r, "Core", wanted) then Some(Offer(wanted, FromSystem("Core")))
      else None
  {
    hide InNamespace, ExportedNames, Named, ModuleExports;
    var base := if "Base" !in r.packages then [] else Named(ExportedNames(r.packages["Base"].root.exports, ns), FromSystem("Base"));
    var core := if "Core" !in r.packages then [] else Named(ExportedNames(r.packages["Core"].root.exports, ns), FromSystem("Core"));
    if "Base" in r.packages {
      FindExports(r.packages["Base"].root, FromSystem("Base"), ns, wanted);
    }
    if "Core" in r.packages {
      FindExports(r.packages["Core"].root, FromSystem("Core"), ns, wanted);
    }
    assert ["Base", "Core"][1..] == ["Core"];
    assert SystemOffers(r, ["Core"], ns) == core + [];
    assert SystemOffers(r, ["Base", "Core"], ns) == base + (core + []);
    FindConcat(base, core + [], wanted);
    FindConcat(core, [], wanted);
  }

  /** Base being absent hides Core from `Resolve`, and only then. */
  lemma SystemExportIs(r: Resolver, wanted: string)
    ensures var p := r.SystemExport(wanted);
      && (p.Some? <==> "Base" in r.packages && (Exports(r, "Base", wanted) || Exports(r, "Core", wanted)))
      && (p.Some? ==> p.value.components == [if Exports(r, "Base", wanted) then "Base" else "Core"])
  {
    hide ModuleExports;
    assert ["Base", "Core"][1..] == ["Core"];
    assert ["Core"][1..] == [];
    assert r.FirstSystem([], wanted) == None;
    assert r.FirstSystem(["Core"], wanted) ==
      if Exports(r, "Core", wanted) then Some(Provided(["Core"], r.packages["Core"].root)) else None;
  }

  lemma {:induction false} DefiningAre(r: Resolver, m: ModuleIndex, names: seq<string>, offset: nat, ns: Namespace, wanted: string)
    requires r.Valid()
    ensures wanted in Defining(r, m, names, offset, ns) <==> wanted in names && r.WorkspaceDefines(m, wanted, offset, ns)
  {
    if names != [] {
      DefiningAre(r, m, names[1..], offset, ns, wanted);
    }
  }

  lemma {:induction false} GroupNamesAre(groups: seq<FunctionGroup>, wanted: string)
    ensures wanted in GroupNames(groups) <==> exists i :: 0 <= i < |groups| && groups[i].name == wanted
  {
    if groups != [] {
      GroupNamesAre(groups[1..], wanted);
      if i :| 0 <= i < |groups| && groups[i].name == wanted {
        assert i > 0 ==> groups[1..][i - 1].name == wanted;
      }
    }
  }

  lemma {:induction false} NamespaceOnlyAre(names: seq<string>, ns: Namespace, wanted: string)
    ensures wanted in InNamespaceOnly(names, ns) <==> InNamespace(wanted, ns) && wanted in names
  {
    if names != [] {
      NamespaceOnlyAre(names[1..], ns, wanted);
      hide InNamespace;
    }
  }

  lemma DefinedAre(m: ModuleIndex, wanted: string, ns: Namespace)
    ensures wanted in DefinedNames(m, ns) <==> ModuleDefines(m, wanted, ns)
  {
    GroupNamesAre(m.functions, wanted);
  }

  lemma FindHost(r: Resolver, m: ModuleIndex, offset: nat, wanted: string, ns: Namespace)
    requires r.Valid()
    ensures Find(Named(ModuleNames(r, m, offset, ns), FromModule(m.name)), wanted) ==
      if r.WorkspaceDefines(m, wanted, offset, ns) || (InNamespace(wanted, ns) && ModuleImports(m, wanted)) then
        Some(Offer(wanted, FromModule(m.name)))
      else None
  {
    DefinedAre(m, wanted, ns);
    DefiningAre(r, m, DefinedNames(m, ns), offset, ns, wanted);
    NamespaceOnlyAre(m.importedNames, ns, wanted);
    FindNamed(ModuleNames(r, m, offset, ns), FromModule(m.name), wanted);
    hide InNamespace, Named, Find, DefinedNames;
  }

  // ---- The two exceptions and the agreement ----

  /** The enclosing workspace module's own name, when nothing defines or imports
      it there. */
  predicate OwnNameOnly(r: Resolver, wanted: string, offset: nat, ns: Namespace)
    requires r.Valid()
  {
    && ns.Value? && r.FileBinding(wanted, offset, ns).None?
    && var host := Host(r, offset);
       && host.Some? && host.value.name == wanted
       && !r.WorkspaceDefines(host.value, wanted, offset, ns) && !ModuleImports(host.value, wanted)
  }

  /** A macro's spelling asked about as a value: `Resolve` takes it from an import or
      an export, which `Visible` lists as a macro only. */
  predicate SigilAsValue(r: Resolver, wanted: string, offset: nat, ns: Namespace)
    requires r.Valid()
  {
    && !InNamespace(wanted, ns) && r.FileBinding(wanted, offset, ns).None?
    && var host := Host(r, offset);
       && !(host.Some? && r.WorkspaceDefines(host.value, wanted, offset, ns))
       && ((host.Some? && ModuleImports(host.value, wanted))
           || UsingProvider(r, wanted, offset).Some? || r.SystemExport(wanted).Some?)
  }

  /** Core exports the name, Base is missing, and no earlier tier has it. */
  predicate CoreWithoutBase(r: Resolver, wanted: string, offset: nat, ns: Namespace)
    requires r.Valid()
  {
    && InNamespace(wanted, ns)
    && "Base" !in r.packages && Exports(r, "Core", wanted)
    && r.FileBinding(wanted, offset, ns).None?
    && (r.workspace.Some? ==>
          && r.WorkspaceTier(r.workspace.value, wanted, offset, ns).None?
          && r.WorkspaceUsingExport(r.workspace.value, wanted, offset).None?)
    && r.UsingExport(wanted, offset).None?
  }

  function UsingProvider(r: Resolver, wanted: string, offset: nat): Option<Provided>
    requires r.Valid()
  {
    var own := r.UsingExport(wanted, offset);
    if own.Some? then own
    else if r.workspace.Some? then r.WorkspaceUsingExport(r.workspace.value, wanted, offset) else None
  }

  /** The answer and the candidate come from the same tier and there from the same
      binding, module or path. */
  predicate SameSource(r: Resolver, wanted: string, offset: nat, answer: Resolution, c: Candidate)
    requires r.Valid()
  {
    match answer
    case Unresolved => false
    case ToBinding(b) => c == Candidate(wanted, InFile(b))
    case ToWorkspace(path, name) =>
      && name == wanted && r.workspace.Some?
      && var m := ModuleAt(r.workspace.value.pkg.root, path);
         m.Some? && m == Host(r, offset) && c == Candidate(wanted, InWorkspace(m.value.name))
    case ToWorkspaceImport(name) =>
      name == wanted && Host(r, offset).Some? && c == Candidate(wanted, InWorkspace(Host(r, offset).value.name))
    case ToUsing(mod, name) =>
      && name == wanted
      && var p := UsingProvider(r, wanted, offset);
         p.Some? && mod == Join(p.value.components) && c == Candidate(wanted, ByUsing(Last(p.value.components)))
    case ToSystem(mod, name) => name == wanted && c == Candidate(wanted, BySystem(mod))
  }

  /** No tier and no entry, or an answer and exactly one entry from the same place. */
  predicate Agree(r: Resolver, wanted: string, offset: nat, answer: Resolution, listed: seq<Candidate>)
    requires r.Valid()
  {
    if answer.Unresolved? then listed == [] else |listed| == 1 && SameSource(r, wanted, offset, answer, listed[0])
  }

  function FirstOf(a: Option<Offer>, b: Option<Offer>): Option<Offer> {
    if a.Some? then a else b
  }

  lemma FindOffers(r: Resolver, offset: nat, wanted: string, ns: Namespace)
    requires r.Valid()
    ensures Find(Offers(r, offset, ns), wanted) ==
      FirstOf(FirstOf(FirstOf(FirstOf(
        Find(BindingOffers(r, r.model.ScopeAt(offset), ns), wanted),
        Find(HostOffers(r, offset, ns), wanted)),
        Find(LoadOffers(r, r.model.loads, r.model.ScopeAt(offset), ns), wanted)),
        Find(HostUsingOffers(r, offset, ns), wanted)),
        Find(SystemOffers(r, ["Base", "Core"], ns), wanted))
  {
    hide BindingOffers, HostOffers, LoadOffers, HostUsingOffers, SystemOffers, Find;
    var a := BindingOffers(r, r.model.ScopeAt(offset), ns);
    var b := HostOffers(r, offset, ns);
    var c := LoadOffers(r, r.model.loads, r.model.ScopeAt(offset), ns);
    var d := HostUsingOffers(r, offset, ns);
    var e := SystemOffers(r, ["Base", "Core"], ns);
    FindConcat(a, b, wanted);
    FindConcat(a + b, c, wanted);
    FindConcat(a + b + c, d, wanted);
    FindConcat(a + b + c + d, e, wanted);
  }

  /** What is listed under a name, told from the tiers' own answers. */
  lemma ListedIs(r: Resolver, offset: nat, wanted: string, ns: Namespace)
    requires r.Valid()
    ensures Listed(Unmasked(Offers(r, offset, ns)), wanted) ==
      var bound := r.FileBinding(wanted, offset, ns);
      var host := Host(r, offset);
      var p := UsingProvider(r, wanted, offset);
      if bound.Some? then [Candidate(wanted, InFile(bound.value))]
      else if host.Some? && (r.WorkspaceDefines(host.value, wanted, offset, ns)
                             || (InNamespace(wanted, ns) && ModuleImports(host.value, wanted))) then
        [Candidate(wanted, InWorkspace(host.value.name))]
      else if !InNamespace(wanted, ns) then []
      else if p.Some? then [Candidate(wanted, ByUsing(Last(p.value.components)))]
      else if Exports(r, "Base", wanted) then [Candidate(wanted, BySystem("Base"))]
      else if Exports(r, "Core", wanted) then [Candidate(wanted, BySystem("Core"))]
      else []
  {
    hide Find, Listed, Unmasked, Offers, BindingOffers, LoadOffers, UsingOffers, SystemOffers, Named, ModuleNames, InNamespace,
      Exports, ModuleImports, Resolver.WorkspaceDefines, Resolver.FirstLoad, Resolver.FirstUsing, Resolver.BindingFrom,
      HostOffers, HostUsingOffers, Last;
    ListedIsFound(Offers(r, offset, ns), wanted);
    FindOffers(r, offset, wanted, ns);
    FindBindings(r, r.model.ScopeAt(offset), wanted, ns);
    FindLoads(r, r.model.loads, r.model.ScopeAt(offset), wanted, ns);
    FindSystem(r, wanted, ns);
    HostFound(r, offset, wanted, ns);
    HostUsingsFound(r, offset, wanted, ns);
  }

  lemma HostFound(r: Resolver, offset: nat, wanted: string, ns: Namespace)
    requires r.Valid()
    ensures Find(HostOffers(r, offset, ns), wanted) ==
      var host := Host(r, offset);
      if host.Some? && (r.WorkspaceDefines(host.value, wanted, offset, ns)
                        || (InNamespace(wanted, ns) && ModuleImports(host.value, wanted))) then
        Some(Offer(wanted, FromModule(host.value.name)))
      else None
  {
    hide InNamespace, ModuleImports, Resolver.WorkspaceDefines, Named, ModuleNames, Resolver.HostModule;
    if Host(r, offset).Some? {
      FindHost(r, Host(r, offset).value, offset, wanted, ns);
    }
  }

  lemma HostUsingsFound(r: Resolver, offset: nat, wanted: string, ns: Namespace)
    requires r.Valid()
    ensures Find(HostUsingOffers(r, offset, ns), wanted) ==
      if !InNamespace(wanted, ns) then None
      else ByProvided(if r.workspace.Some? then r.WorkspaceUsingExport(r.workspace.value, wanted, offset) else None, wanted)
  {
    hide InNamespace, UsingOffers, Resolver.HostModule, Resolver.FirstUsing;
    if Host(r, offset).Some? {
      FindUsings(r, Host(r, offset).value.usings, wanted, ns);
    }
  }

  /** For every name and position, `Resolve` and `Visible` agree exactly when none of
      the exceptions applies. */
  lemma ResolveAgreesWithVisible(r: Resolver, name: string, offset: nat, ns: Namespace)
    requires r.Valid()
    ensures var wanted := WantedName(name, ns);
      Agree(r, wanted, offset, r.Resolve(name, offset, ns), Listed(Unmasked(Offers(r, offset, ns)), wanted))
      <==> !OwnNameOnly(r, wanted, offset, ns) && !CoreWithoutBase(r, wanted, offset, ns) && !SigilAsValue(r, wanted, offset, ns)
  {
    var wanted := WantedName(name, ns);
    hide Listed, Unmasked, Offers, WantedName, InNamespace, ModuleExports, ModuleImports, Join, Last,
      Resolver.FileBinding, Resolver.WorkspaceDefines, Resolver.UsingExport, Resolver.WorkspaceUsingExport, Resolver.SystemExport;
    ListedIs(r, offset, wanted, ns);
    SystemExportIs(r, wanted);
  }

  /** Only a value name with a sigil can be such a spelling; the program's callers
      pass names bare. */
  lemma BareNamesHaveNoSigil(r: Resolver, name: string, offset: nat, ns: Namespace)
    requires r.Valid() && SigilAsValue(r, WantedName(name, ns), offset, ns)
    ensures ns.Value? && name != "" && name[0] == '@'
  {
    hide Resolver.FileBinding, Resolver.WorkspaceDefines, Resolver.SystemExport, UsingProvider, Host;
  }

  // ---- All three exceptions occur ----

  const BARE_FILE: SemanticModel := SemanticModel([Scope(File, None, Range(0, 0), [], None)], [], [], [])

  function PlainModule(name: string, exports: seq<Export>): ModuleIndex {
    ModuleIndex(name, exports, [], [], [], [], [], [], [])
  }

  /** Inside package `P`, the name `P` resolves but is not listed. */
  lemma OwnNameIsNotListed()
    ensures var r := Resolver(BARE_FILE, map[], Some(WorkspaceCtx(PackageIndex("P", PlainModule("P", [])), [])));
      && r.Valid()
      && r.Resolve("P", 0, Value) == ToWorkspace([], "P")
      && Listed(Unmasked(Offers(r, 0, Value)), "P") == []
  {
    var r := Resolver(BARE_FILE, map[], Some(WorkspaceCtx(PackageIndex("P", PlainModule("P", [])), [])));
    assert r.model.ScopeAt(0) == 0;
    assert r.model.EnclosingModulePath(0) == [];
    ListedIs(r, 0, "P", Value);
    assert r.FileBinding("P", 0, Value) == None;
  }

  /** With Core alone in the library, its export is listed but does not resolve. */
  lemma CoreAloneIsNotResolved()
    ensures var r := Resolver(BARE_FILE, map["Core" := PackageIndex("Core", PlainModule("Core", [Export("x", true)]))], None);
      && r.Valid()
      && r.Resolve("x", 0, Value) == Unresolved
      && Listed(Unmasked(Offers(r, 0, Value)), "x") == [Candidate("x", BySystem("Core"))]
  {
    var r := Resolver(BARE_FILE, map["Core" := PackageIndex("Core", PlainModule("Core", [Export("x", true)]))], None);
    assert r.model.ScopeAt(0) == 0;
    assert ModuleExports(r.packages["Core"].root, "x") by {
      assert r.packages["Core"].root.exports[0] == Export("x", true);
    }
    ListedIs(r, 0, "x", Value);
    assert r.FileBinding("x", 0, Value) == None;
  }

  /** With a macro exported from Base, its spelling resolves as a value but is not
      listed among the values. */
  lemma SigilIsNotListed()
    ensures var r := Resolver(BARE_FILE, map["Base" := PackageIndex("Base", PlainModule("Base", [Export("@m", true)]))], None);
      && r.Valid()
      && r.Resolve("@m", 0, Value) == ToSystem("Base", "@m")
      && Listed(Unmasked(Offers(r, 0, Value)), "@m") == []
  {
    var r := Resolver(BARE_FILE, map["Base" := PackageIndex("Base", PlainModule("Base", [Export("@m", true)]))], None);
    assert r.model.ScopeAt(0) == 0;
    assert ModuleExports(r.packages["Base"].root, "@m") by {
      assert r.packages["Base"].root.exports[0] == Export("@m", true);
    }
    assert !InNamespace("@m", Value);
    ListedIs(r, 0, "@m", Value);
    SystemExportIs(r, "@m");
    assert r.FileBinding("@m", 0, Value) == None;
  }

  // ---- Item lists ----

  /** A file that has one `using` clause for `X`, whole or with an item list. */
  function UsingFile(hasItems: bool): SemanticModel {
    SemanticModel([Scope(File, None, Range(0, 0), [], None)], [], [], [ModuleLoad(LoadKind.Using, 0, ["X"], hasItems, 0)])
  }

  const X_MODULE: ModuleIndex := PlainModule("X", [Export("a", true), Export("b", true)])

  function UsingX(hasItems: bool): Resolver {
    Resolver(UsingFile(hasItems), map["X" := PackageIndex("X", X_MODULE)], None)
  }

  lemma UsingXPlace(hasItems: bool)
    ensures var r := UsingX(hasItems);
      r.Valid() && r.model.ScopeAt(0) == 0 && r.FileBinding("b", 0, Value) == None
  {
    assert UsingX(hasItems).model.ScopeAt(0) == 0;
  }

  lemma UsingXLibrary(hasItems: bool)
    ensures var r := UsingX(hasItems);
      && r.Library(["X"]) == Some(X_MODULE) && r.workspace == None
      && "Base" !in r.packages && "Core" !in r.packages && ModuleExports(X_MODULE, "b")
  {
    assert X_MODULE.exports[1] == Export("b", true);
    assert |"X"| == 1 && |"Base"| == 4 && |"Core"| == 4;
    assert ["X"][1..] == [];
  }

  lemma UsingXExport(hasItems: bool)
    ensures UsingX(hasItems).Valid()
    ensures UsingX(hasItems).UsingExport("b", 0) == if hasItems then None else Some(Provided(["X"], X_MODULE))
  {
    UsingXPlace(hasItems);
    UsingXLibrary(hasItems);
    var r := UsingX(hasItems);
    hide Resolver.Library, ModuleExports, SemanticModel.ScopeAt;
    assert r.model.loads == [ModuleLoad(LoadKind.Using, 0, ["X"], hasItems, 0)] && r.model.loads[1..] == [];
    assert r.FirstLoad([], 0, "b") == None;
    assert r.Reaches(0, 0);
  }

  lemma UsingXListed(hasItems: bool)
    ensures var r := UsingX(hasItems);
      r.Valid() && Listed(Unmasked(Offers(r, 0, Value)), "b") == (if hasItems then [] else [Candidate("b", ByUsing("X"))])
  {
    UsingXPlace(hasItems);
    UsingXLibrary(hasItems);
    UsingXExport(hasItems);
    assert InNamespace("b", Value);
    hide UsingX, Listed, Unmasked, Offers, ModuleExports, InNamespace, Resolver.FileBinding, Resolver.UsingExport,
      SemanticModel.ScopeAt;
    ListedIs(UsingX(hasItems), 0, "b", Value);
  }

  /** `using X` opens what `X` exports; `using X: a` does not. */
  lemma ItemListOpensNothing(hasItems: bool)
    ensures var r := UsingX(hasItems);
      && r.Valid()
      && r.Resolve("b", 0, Value) == (if hasItems then Unresolved else ToUsing("X", "b"))
      && Listed(Unmasked(Offers(r, 0, Value)), "b") == (if hasItems then [] else [Candidate("b", ByUsing("X"))])
  {
    UsingXPlace(hasItems);
    UsingXLibrary(hasItems);
    UsingXExport(hasItems);
    UsingXListed(hasItems);
    hide UsingX, Listed, Unmasked, Offers, ModuleExports, Resolver.FileBinding, Resolver.UsingExport, Resolver.SystemExport,
      SemanticModel.ScopeAt;
    SystemExportIs(UsingX(hasItems), "b");
  }
}
