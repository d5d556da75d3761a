/** Completion's view of the tiers (src/resolve.rs): everything they offer, in
    masking order and with repetitions, and `Visible`, which lists of that the first
    offer under each name. */
module Visibility {
  import opened Wrappers
  import opened SemanticModel
  import opened Resolver

  datatype Provider =
    | FromBinding(b: BindingId)
    | FromModule(mod: string)
    | FromUsing(components: seq<string>)
    | FromSystem(mod: string)

  datatype Offer = Offer(name: string, provider: Provider)

  function Last(components: seq<string>): string {
    if components == [] then "" else components[|components| - 1]
  }

  function Shown(o: Offer): Candidate {
    match o.provider
    case FromBinding(b) => Candidate(o.name, InFile(b))
    case FromModule(mod) => Candidate(o.name, InWorkspace(mod))
    case FromUsing(components) => Candidate(o.name, ByUsing(Last(components)))
    case FromSystem(mod) => Candidate(o.name, BySystem(mod))
  }

  // ---- What the tiers offer ----

  function Named(names: seq<string>, p: Provider): seq<Offer> {
    if names == [] then [] else [Offer(names[0], p)] + Named(names[1..], p)
  }

  /** The bindings of one scope, the last introduced first. */
  function ScopeOffers(r: Resolver, bindings: seq<BindingId>, ns: Namespace): seq<Offer>
    requires forall k :: 0 <= k < |bindings| ==> bindings[k] < |r.model.bindings|
  {
    if bindings == [] then []
    else
      var b := bindings[|bindings| - 1];
      var name := NamespacedName(r.model.bindings[b], ns);
      (if name.Some? then [Offer(name.value, FromBinding(b))] else []) + ScopeOffers(r, bindings[..|bindings| - 1], ns)
  }

  function BindingOffers(r: Resolver, scope: ScopeId, ns: Namespace): seq<Offer>
    requires r.Valid() && scope < |r.model.scopes|
    decreases scope
  {
    var next := r.model.Outward(scope);
    ScopeOffers(r, r.model.scopes[scope].bindings, ns) + if next.Some? then BindingOffers(r, next.value, ns) else []
  }

  function Defining(r: Resolver, m: ModuleIndex, names: seq<string>, offset: nat, ns: Namespace): seq<string>
    requires r.Valid()
  {
    if names == [] then []
    else (if r.WorkspaceDefines(m, names[0], offset, ns) then [names[0]] else []) + Defining(r, m, names[1..], offset, ns)
  }

  function InNamespaceOnly(names: seq<string>, ns: Namespace): seq<string> {
    if names == [] then [] else (if InNamespace(names[0], ns) then [names[0]] else []) + InNamespaceOnly(names[1..], ns)
  }

  function ModuleNames(r: Resolver, m: ModuleIndex, offset: nat, ns: Namespace): seq<string>
    requires r.Valid()
  {
    Defining(r, m, DefinedNames(m, ns), offset, ns) + InNamespaceOnly(m.importedNames, ns)
  }

  function LoadOffers(r: Resolver, loads: seq<ModuleLoad>, at: ScopeId, ns: Namespace): seq<Offer>
    requires r.Valid() && at < |r.model.scopes|
  {
    if loads == [] then []
    else
      (match r.UsingModule(loads[0], at)
       case None => []
       case Some(m) => Named(ExportedNames(m.exports, ns), FromUsing(loads[0].components)))
      + LoadOffers(r, loads[1..], at, ns)
  }

  function UsingOffers(r: Resolver, usings: seq<ModuleUsing>, ns: Namespace): seq<Offer> {
    if usings == [] then []
    else
      (match r.ResolveUsing(usings[0])
       case None => []
       case Some(m) => Named(ExportedNames(m.exports, ns), FromUsing(usings[0].components)))
      + UsingOffers(r, usings[1..], ns)
  }

  function SystemOffers(r: Resolver, names: seq<string>, ns: Namespace): seq<Offer> {
    if names == [] then []
    else
      (if names[0] !in r.packages then []
       else Named(ExportedNames(r.packages[names[0]].root.exports, ns), FromSystem(names[0])))
      + SystemOffers(r, names[1..], ns)
  }

  function Host(r: Resolver, offset: nat): Option<ModuleIndex>
    requires r.Valid()
  {
    if r.workspace.Some? then r.HostModule(r.workspace.value, offset) else None
  }

  function HostOffers(r: Resolver, offset: nat, ns: Namespace): seq<Offer>
    requires r.Valid()
  {
    match Host(r, offset)
    case None => []
    case Some(m) => Named(ModuleNames(r, m, offset, ns), FromModule(m.name))
  }

  function HostUsingOffers(r: Resolver, offset: nat, ns: Namespace): seq<Offer>
    requires r.Valid()
  {
    match Host(r, offset)
    case None => []
    case Some(m) => UsingOffers(r, m.usings, ns)
  }

  function Offers(r: Resolver, offset: nat, ns: Namespace): seq<Offer>
    requires r.Valid()
  {
    BindingOffers(r, r.model.ScopeAt(offset), ns)
    + HostOffers(r, offset, ns)
    + LoadOffers(r, r.model.loads, r.model.ScopeAt(offset), ns)
    + HostUsingOffers(r, offset, ns)
    + SystemOffers(r, ["Base", "Core"], ns)
  }

  // ---- Masking ----

  function Names(offers: seq<Offer>): set<string> {
    set i | 0 <= i < |offers| :: offers[i].name
  }

  /** What is shown of the offers: the first under each name. */
  function Unmasked(offers: seq<Offer>): seq<Candidate> {
    if offers == [] then []
    else
      var before := offers[..|offers| - 1];
      var o := offers[|offers| - 1];
      Unmasked(before) + if o.name in Names(before) then [] else [Shown(o)]
  }

  /** `seen` and `out` are what listing the offers has led to. */
  ghost predicate Listing(seen: set<string>, out: seq<Candidate>, offers: seq<Offer>) {
    seen == Names(offers) && out == Unmasked(offers)
  }

  lemma ListsOne(seen: set<string>, out: seq<Candidate>, offers: seq<Offer>, o: Offer)
    requires Listing(seen, out, offers)
    ensures Listing(seen + {o.name}, if o.name in seen then out else out + [Shown(o)], offers + [o])
  {
    var more := offers + [o];
    assert more[..|more| - 1] == offers;
    assert Names(more) == Names(offers) + {o.name} by {
      assert more[|offers|] == o;
      assert forall i :: 0 <= i < |offers| ==> more[i] == offers[i];
    }
    hide Shown, Names;
  }

  method ListNames(names: seq<string>, p: Provider, seen: set<string>, out: seq<Candidate>, ghost offers: seq<Offer>)
    returns (seen': set<string>, out': seq<Candidate>)
    requires Listing(seen, out, offers)
    ensures Listing(seen', out', offers + Named(names, p))
  {
    hide Listing, Shown;
    seen', out' := seen, out;
    ghost var done := offers;
    for i := 0 to |names|
      invariant Listing(seen', out', done)
      invariant done + Named(names[i..], p) == offers + Named(names, p)
    {
      var o := Offer(names[i], p);
      assert Named(names[i..], p) == [o] + Named(names[i + 1..], p) by {
        assert names[i..][1..] == names[i + 1..];
      }
      Regroup(done, [o], Named(names[i + 1..], p));
      ListsOne(seen', out', done, o);
      if names[i] !in seen' {
        seen' := seen' + {names[i]};
        out' := out' + [Shown(o)];
      } else {
        assert seen' + {names[i]} == seen';
      }
      done := done + [o];
    }
    Regroup(done, [], []);
  }

  lemma Regroup<T>(a: seq<T>, b: seq<T>, c: seq<T>)
    ensures a + (b + c) == (a + b) + c
    ensures a + [] == a
  {
  }

  method ListScope(r: Resolver, scope: ScopeId, ns: Namespace, seen: set<string>, out: seq<Candidate>, ghost offers: seq<Offer>)
    returns (seen': set<string>, out': seq<Candidate>)
    requires r.Valid() && scope < |r.model.scopes| && Listing(seen, out, offers)
    ensures Listing(seen', out', offers + ScopeOffers(r, r.model.scopes[scope].bindings, ns))
  {
    hide Listing, Shown, NamespacedName;
    var bindings := r.model.scopes[scope].bindings;
    seen', out' := seen, out;
    ghost var done := offers;
    assert bindings[..|bindings|] == bindings;
    for k := |bindings| downto 0
      invariant Listing(seen', out', done)
      invariant done + ScopeOffers(r, bindings[..k], ns) == offers + ScopeOffers(r, bindings, ns)
    {
      var b := bindings[k];
      var name := NamespacedName(r.model.bindings[b], ns);
      ghost var rest := ScopeOffers(r, bindings[..k], ns);
      assert ScopeOffers(r, bindings[..k + 1], ns) == (if name.Some? then [Offer(name.value, FromBinding(b))] else []) + rest by {
        assert bindings[..k + 1][..k] == bindings[..k];
      }
      if name.Some? {
        var o := Offer(name.value, FromBinding(b));
        Regroup(done, [o], rest);
        ListsOne(seen', out', done, o);
        if name.value !in seen' {
          seen' := seen' + {name.value};
          out' := out' + [Shown(o)];
        } else {
          assert seen' + {name.value} == seen';
        }
        done := done + [o];
      } else {
        assert [] + rest == rest;
      }
    }
    Regroup(done, [], []);
  }

  method ListBindings(r: Resolver, at: ScopeId, ns: Namespace, seen: set<string>, out: seq<Candidate>, ghost offers: seq<Offer>)
    returns (seen': set<string>, out': seq<Candidate>)
    requires r.Valid() && at < |r.model.scopes| && Listing(seen, out, offers)
    ensures Listing(seen', out', offers + BindingOffers(r, at, ns))
  {
    hide Listing, ScopeOffers;
    seen', out' := seen, out;
    ghost var done := offers;
    var cursor: Option<ScopeId> := Some(at);
    while cursor.Some?
      invariant cursor.Some? ==> cursor.value < |r.model.scopes|
      invariant Listing(seen', out', done)
      invariant done + (if cursor.Some? then BindingOffers(r, cursor.value, ns) else []) == offers + BindingOffers(r, at, ns)
      decreases if cursor.Some? then cursor.value + 1 else 0
    {
      ghost var here := ScopeOffers(r, r.model.scopes[cursor.value].bindings, ns);
      seen', out' := ListScope(r, cursor.value, ns, seen', out', done);
      var next := r.model.Outward(cursor.value);
      Regroup(done, here, if next.Some? then BindingOffers(r, next.value, ns) else []);
      done := done + here;
      cursor := next;
    }
    Regroup(done, [], []);
  }

  method ListLoads(r: Resolver, at: ScopeId, ns: Namespace, seen: set<string>, out: seq<Candidate>, ghost offers: seq<Offer>)
    returns (seen': set<string>, out': seq<Candidate>)
    requires r.Valid() && at < |r.model.scopes| && Listing(seen, out, offers)
    ensures Listing(seen', out', offers + LoadOffers(r, r.model.loads, at, ns))
  {
    hide Listing, Named, ExportedNames;
    var loads := r.model.loads;
    seen', out' := seen, out;
    ghost var done := offers;
    for i := 0 to |loads|
      invariant Listing(seen', out', done)
      invariant done + LoadOffers(r, loads[i..], at, ns) == offers + LoadOffers(r, loads, at, ns)
    {
      var m := r.UsingModule(loads[i], at);
      ghost var rest := LoadOffers(r, loads[i + 1..], at, ns);
      assert loads[i..][0] == loads[i] && loads[i..][1..] == loads[i + 1..];
      if m.Some? {
        var names := ExportedNames(m.value.exports, ns);
        Regroup(done, Named(names, FromUsing(loads[i].components)), rest);
        seen', out' := ListNames(names, FromUsing(loads[i].components), seen', out', done);
        done := done + Named(names, FromUsing(loads[i].components));
      } else {
        assert [] + rest == rest;
      }
    }
    Regroup(done, [], []);
  }

  method ListUsings(r: Resolver, usings: seq<ModuleUsing>, ns: Namespace, seen: set<string>, out: seq<Candidate>,
                    ghost offers: seq<Offer>)
    returns (seen': set<string>, out': seq<Candidate>)
    requires Listing(seen, out, offers)
    ensures Listing(seen', out', offers + UsingOffers(r, usings, ns))
  {
    hide Listing, Named, ExportedNames;
    seen', out' := seen, out;
    ghost var done := offers;
    for i := 0 to |usings|
      invariant Listing(seen', out', done)
      invariant done + UsingOffers(r, usings[i..], ns) == offers + UsingOffers(r, usings, ns)
    {
      var m := r.ResolveUsing(usings[i]);
      ghost var rest := UsingOffers(r, usings[i + 1..], ns);
      assert usings[i..][0] == usings[i] && usings[i..][1..] == usings[i + 1..];
      if m.Some? {
        var names := ExportedNames(m.value.exports, ns);
        Regroup(done, Named(names, FromUsing(usings[i].components)), rest);
        seen', out' := ListNames(names, FromUsing(usings[i].components), seen', out', done);
        done := done + Named(names, FromUsing(usings[i].components));
      } else {
        assert [] + rest == rest;
      }
    }
    Regroup(done, [], []);
  }

  method ListSystem(r: Resolver, ns: Namespace, seen: set<string>, out: seq<Candidate>, ghost offers: seq<Offer>)
    returns (seen': set<string>, out': seq<Candidate>)
    requires Listing(seen, out, offers)
    ensures Listing(seen', out', offers + SystemOffers(r, ["Base", "Core"], ns))
  {
    hide Listing, Named, ExportedNames;
    var modules := ["Base", "Core"];
    seen', out' := seen, out;
    ghost var done := offers;
    for i := 0 to |modules|
      invariant Listing(seen', out', done)
      invariant done + SystemOffers(r, modules[i..], ns) == offers + SystemOffers(r, modules, ns)
    {
      ghost var rest := SystemOffers(r, modules[i + 1..], ns);
      assert modules[i..][0] == modules[i] && modules[i..][1..] == modules[i + 1..];
      if modules[i] in r.packages {
        var names := ExportedNames(r.packages[modules[i]].root.exports, ns);
        Regroup(done, Named(names, FromSystem(modules[i])), rest);
        seen', out' := ListNames(names, FromSystem(modules[i]), seen', out', done);
        done := done + Named(names, FromSystem(modules[i]));
      } else {
        assert [] + rest == rest;
      }
    }
    Regroup(done, [], []);
  }

  method Visible(r: Resolver, offset: nat, ns: Namespace) returns (out: seq<Candidate>)
    requires r.Valid()
    ensures out == Unmasked(Offers(r, offset, ns))
  {
    var seen: set<string>;
    var at := r.model.FindScopeAt(offset);
    seen, out := {}, [];
    assert Listing(seen, out, []);
    ghost var offers: seq<Offer> := [];
    hide BindingOffers, Named, ModuleNames, LoadOffers, UsingOffers, SystemOffers;
    seen, out := ListBindings(r, at, ns, seen, out, offers);
    offers := offers + BindingOffers(r, at, ns);
    assert offers == BindingOffers(r, at, ns);
    var host := Host(r, offset);
    if host.Some? {
      var names := ModuleNames(r, host.value, offset, ns);
      seen, out := ListNames(names, FromModule(host.value.name), seen, out, offers);
    }
    Regroup(offers, [], []);
    offers := offers + HostOffers(r, offset, ns);
    seen, out := ListLoads(r, at, ns, seen, out, offers);
    offers := offers + LoadOffers(r, r.model.loads, at, ns);
    if host.Some? {
      seen, out := ListUsings(r, host.value.usings, ns, seen, out, offers);
    }
    Regroup(offers, [], []);
    offers := offers + HostUsingOffers(r, offset, ns);
    seen, out := ListSystem(r, ns, seen, out, offers);
  }
}
