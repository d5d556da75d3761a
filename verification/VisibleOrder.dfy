/** What completion lists (src/resolve.rs): every place from which a name can come,
    in masking order, without those whose name an earlier place has already
    given. */
module VisibleOrder {
  import opened Wrappers
  import opened SemanticModel
  import opened Resolver
  import opened Visibility
  import opened ResolutionRules

  /** A place among the tiers: the tier, the scope, list or clause inside it, and the
      position there. */
  datatype Place = Place(tier: nat, list: nat, item: nat)

  predicate Earlier(a: Place, b: Place) {
    || a.tier < b.tier
    || (a.tier == b.tier && (a.list < b.list || (a.list == b.list && a.item < b.item)))
  }

  /** The position asked about, with its chain of scopes and its module path. */
  datatype Site = Site(r: Resolver, chain: seq<ScopeId>, path: ModulePath, ns: Namespace)

  /** The names a module defines, list by list: functions, types and constants, or
      its macros. */
  ghost predicate NameAt(m: ModuleIndex, ns: Namespace, list: nat, item: nat, name: string) {
    match ns
    case Macro => list == 0 && item < |m.macros| && name == m.macros[item]
    case Value =>
      || (list == 0 && item < |m.functions| && name == m.functions[item].name)
      || (list == 1 && item < |m.types| && name == m.types[item])
      || (list == 2 && item < |m.consts| && name == m.consts[item])
  }

  /** Tier 0: the bindings of the scopes on the chain, the last introduced first. */
  ghost predicate BindingAt(s: Site, p: Place, c: Candidate) {
    && p.list < |s.chain| && s.chain[p.list] < |s.r.model.scopes|
    && var bindings := s.r.model.scopes[s.chain[p.list]].bindings;
       && p.item < |bindings| && bindings[|bindings| - 1 - p.item] < |s.r.model.bindings|
       && c.source == InFile(bindings[|bindings| - 1 - p.item])
       && GoesBy(s.r.model.bindings[bindings[|bindings| - 1 - p.item]], c.name, s.ns)
  }

  /** Tier 1: what the workspace module defines here, and then what it imports. */
  ghost predicate HostAt(s: Site, p: Place, c: Candidate) {
    exists m :: HostIs(s.r, s.path, m) && HostItem(s, p, c, m)
  }

  ghost predicate HostItem(s: Site, p: Place, c: Candidate, m: ModuleIndex) {
    && c.source == InWorkspace(m.name)
    && (|| (p.list < 3 && NameAt(m, s.ns, p.list, p.item, c.name) && DefinesHere(s.r, s.chain, s.path, m, c.name, s.ns))
        || (p.list == 3 && p.item < |m.importedNames| && c.name == m.importedNames[p.item] && HasSigil(c.name) == s.ns.Macro?))
  }

  /** An export of a module, in the namespace. */
  ghost predicate ExportAt(s: Site, item: nat, m: ModuleIndex, name: string) {
    item < |m.exports| && m.exports[item] == Export(name, true) && HasSigil(name) == s.ns.Macro?
  }

  /** Tier 2: the exports of the modules that the file's clauses open. */
  ghost predicate LoadAt(s: Site, p: Place, c: Candidate) {
    && p.list < |s.r.model.loads|
    && var load := s.r.model.loads[p.list];
       && load.kind == LoadKind.Using && !load.hasItems && load.scope in s.chain
       && load.components != [] && c.source == ByUsing(load.components[|load.components| - 1])
       && exists m :: Opens(s.r.packages, load.leadingDots, load.components, m) && ExportAt(s, p.item, m, c.name)
  }

  /** Tier 3: the exports of the modules that the workspace module opens. */
  ghost predicate SiblingAt(s: Site, p: Place, c: Candidate) {
    exists host :: HostIs(s.r, s.path, host) && SiblingItem(s, p, c, host.usings)
  }

  ghost predicate SiblingItem(s: Site, p: Place, c: Candidate, usings: seq<ModuleUsing>) {
    && p.list < |usings|
    && var u := usings[p.list];
       && u.components != [] && c.source == ByUsing(u.components[|u.components| - 1])
       && exists m :: Opens(s.r.packages, u.leadingDots, u.components, m) && ExportAt(s, p.item, m, c.name)
  }

  /** Tier 4: the exports of Base and then of Core. */
  ghost predicate SystemAt(s: Site, p: Place, c: Candidate) {
    && p.list < 2
    && var name := if p.list == 0 then "Base" else "Core";
       name in s.r.packages && c.source == BySystem(name) && ExportAt(s, p.item, s.r.packages[name].root, c.name)
  }

  /** The candidate that comes from a place. */
  ghost predicate Gives(s: Site, p: Place, c: Candidate) {
    match p.tier
    case 0 => BindingAt(s, p, c)
    case 1 => HostAt(s, p, c)
    case 2 => LoadAt(s, p, c)
    case 3 => SiblingAt(s, p, c)
    case 4 => SystemAt(s, p, c)
    case _ => false
  }

  // ---- Lists of offers against stretches of places ----

  ghost predicate Within(from: Place, p: Place, to: Place) {
    !Earlier(p, from) && Earlier(p, to)
  }

  ghost predicate Ascending(places: seq<Place>) {
    forall i, j :: 0 <= i < j < |places| ==> Earlier(places[i], places[j])
  }

  ghost predicate Covered(places: seq<Place>, offers: seq<Offer>, p: Place, c: Candidate) {
    exists i :: 0 <= i < |places| && i < |offers| && places[i] == p && Shown(offers[i]) == c
  }

  /** The places are in the stretch, and each gives its offer. */
  ghost predicate Stand(s: Site, offers: seq<Offer>, places: seq<Place>, from: Place, to: Place) {
    && |offers| == |places|
    && forall i :: 0 <= i < |places| ==> Within(from, places[i], to) && Gives(s, places[i], Shown(offers[i]))
  }

  /** The offers are all that the places of a stretch give, in order. */
  ghost predicate Describes(s: Site, offers: seq<Offer>, places: seq<Place>, from: Place, to: Place) {
    && Stand(s, offers, places, from, to) && Ascending(places)
    && forall p, c :: Within(from, p, to) && Gives(s, p, c) ==> Covered(places, offers, p, c)
  }

  lemma CoveredLeft(places: seq<Place>, offers: seq<Offer>, p: Place, c: Candidate, more: seq<Place>, others: seq<Offer>)
    requires Covered(places, offers, p, c) && |places| == |offers|
    ensures Covered(places + more, offers + others, p, c)
  {
    var i :| 0 <= i < |places| && i < |offers| && places[i] == p && Shown(offers[i]) == c;
    assert (places + more)[i] == p && (offers + others)[i] == offers[i];
  }

  lemma CoveredRight(places: seq<Place>, offers: seq<Offer>, p: Place, c: Candidate, more: seq<Place>, others: seq<Offer>)
    requires Covered(places, offers, p, c) && |places| == |offers| && |more| == |others|
    ensures Covered(more + places, others + offers, p, c)
  {
    var i :| 0 <= i < |places| && i < |offers| && places[i] == p && Shown(offers[i]) == c;
    assert (more + places)[|more| + i] == p && (others + offers)[|more| + i] == offers[i];
  }

  lemma AscendingConcat(a: seq<Place>, b: seq<Place>, from: Place, middle: Place, to: Place)
    requires Ascending(a) && Ascending(b)
    requires forall i :: 0 <= i < |a| ==> Within(from, a[i], middle)
    requires forall i :: 0 <= i < |b| ==> Within(middle, b[i], to)
    ensures Ascending(a + b)
  {
  }

  lemma WithinMiddle(from: Place, middle: Place, to: Place, p: Place)
    requires !Earlier(middle, from) && !Earlier(to, middle)
    ensures Within(from, p, to) <==> Within(from, p, middle) || Within(middle, p, to)
  {
  }

  lemma BothStand(s: Site, a: seq<Offer>, pa: seq<Place>, b: seq<Offer>, pb: seq<Place>, from: Place, middle: Place, to: Place)
    requires Stand(s, a, pa, from, middle) && Stand(s, b, pb, middle, to)
    requires !Earlier(middle, from) && !Earlier(to, middle)
    ensures Stand(s, a + b, pa + pb, from, to)
  {
    hide Gives, Within, Shown;
    forall i | 0 <= i < |pa + pb|
      ensures Within(from, (pa + pb)[i], to) && Gives(s, (pa + pb)[i], Shown((a + b)[i]))
    {
      WithinMiddle(from, middle, to, (pa + pb)[i]);
    }
  }

  /** Two stretches, one after the other. */
  lemma DescribesBoth(s: Site, a: seq<Offer>, pa: seq<Place>, b: seq<Offer>, pb: seq<Place>, from: Place, middle: Place, to: Place)
    requires Describes(s, a, pa, from, middle) && Describes(s, b, pb, middle, to)
    requires !Earlier(middle, from) && !Earlier(to, middle)
    ensures Describes(s, a + b, pa + pb, from, to)
  {
    hide Gives, Covered, Ascending, Within, Shown;
    BothStand(s, a, pa, b, pb, from, middle, to);
    AscendingConcat(pa, pb, from, middle, to);
    forall p, c | Within(from, p, to) && Gives(s, p, c)
      ensures Covered(pa + pb, a + b, p, c)
    {
      WithinMiddle(from, middle, to, p);
      if Within(from, p, middle) {
        CoveredLeft(pa, a, p, c, pb, b);
      } else {
        CoveredRight(pb, b, p, c, pa, a);
      }
    }
  }

  ghost predicate Barren(s: Site, from: Place, to: Place) {
    forall p, c :: Within(from, p, to) ==> !Gives(s, p, c)
  }

  lemma DescribesNothing(s: Site, from: Place, to: Place)
    requires Barren(s, from, to)
    ensures Describes(s, [], [], from, to)
  {
    hide Gives;
  }

  /** A stretch of one place. */
  lemma DescribesOne(s: Site, o: Offer, p: Place)
    requires Gives(s, p, Shown(o)) && forall c :: Gives(s, p, c) ==> c == Shown(o)
    ensures Describes(s, [o], [p], p, p.(item := p.item + 1))
  {
    hide Gives, Shown;
    forall q, c | Within(p, q, p.(item := p.item + 1)) && Gives(s, q, c)
      ensures Covered([p], [o], q, c)
    {
      assert [p][0] == q && [o][0] == o;
    }
  }

  function Maybe(o: Option<Offer>): seq<Offer> {
    if o.Some? then [o.value] else []
  }

  /** A place that gives what is said of it, and then a stretch. */
  lemma DescribesStep(s: Site, o: Option<Offer>, p: Place, rest: seq<Offer>, more: seq<Place>, to: Place) returns (places: seq<Place>)
    requires forall c :: Gives(s, p, c) <==> o.Some? && c == Shown(o.value)
    requires Describes(s, rest, more, p.(item := p.item + 1), to) && Earlier(p, to)
    ensures Describes(s, Maybe(o) + rest, places, p, to)
  {
    hide Gives, Describes, Shown;
    var next := p.(item := p.item + 1);
    if o.Some? {
      DescribesOne(s, o.value, p);
      DescribesBoth(s, [o.value], [p], rest, more, p, next, to);
      places := [p] + more;
    } else {
      SkipsOne(s, p);
      DescribesBoth(s, [], [], rest, more, p, next, to);
      places := [] + more;
    }
  }

  lemma SkipsOne(s: Site, p: Place)
    requires forall c :: !Gives(s, p, c)
    ensures Describes(s, [], [], p, p.(item := p.item + 1))
  {
    hide Gives;
    assert forall q, c :: Within(p, q, p.(item := p.item + 1)) ==> !Gives(s, q, c);
    DescribesNothing(s, p, p.(item := p.item + 1));
  }

  lemma NamedBoth(a: seq<string>, b: seq<string>, provider: Provider)
    ensures Named(a + b, provider) == Named(a, provider) + Named(b, provider)
  {
    if a == [] {
      assert a + b == b;
    } else {
      assert (a + b)[1..] == a[1..] + b;
      NamedBoth(a[1..], b, provider);
    }
  }

  /** The names a list gives, with gaps where it gives none. */
  type Slots = seq<Option<string>>

  function Present(slots: Slots): seq<string> {
    if slots == [] then [] else (if slots[0].Some? then [slots[0].value] else []) + Present(slots[1..])
  }

  /** One list of a tier gives just the names in the slots. */
  ghost predicate ListGives(s: Site, tier: nat, list: nat, slots: Slots, source: Source) {
    forall item: nat, c :: Gives(s, Place(tier, list, item), c) <==>
      item < |slots| && slots[item].Some? && c == Candidate(slots[item].value, source)
  }

  lemma {:induction false} SlotsListed(s: Site, tier: nat, list: nat, slots: Slots, provider: Provider, source: Source, i: nat)
    returns (places: seq<Place>)
    requires i <= |slots| && ListGives(s, tier, list, slots, source)
    requires forall n :: Shown(Offer(n, provider)) == Candidate(n, source)
    ensures Describes(s, Named(Present(slots[i..]), provider), places, Place(tier, list, i), Place(tier, list + 1, 0))
    decreases |slots| - i
  {
    hide Gives, Describes, Shown;
    var p, to := Place(tier, list, i), Place(tier, list + 1, 0);
    if i == |slots| {
      DescribesNothing(s, p, to);
      places := [];
    } else {
      var more := SlotsListed(s, tier, list, slots, provider, source, i + 1);
      var rest := Present(slots[i + 1..]);
      assert slots[i..][0] == slots[i] && slots[i..][1..] == slots[i + 1..];
      var o := if slots[i].Some? then Some(Offer(slots[i].value, provider)) else None;
      places := DescribesStep(s, o, p, Named(rest, provider), more, to);
      NamedBoth(if slots[i].Some? then [slots[i].value] else [], rest, provider);
      assert slots[i].Some? ==> Named([slots[i].value], provider) == [Offer(slots[i].value, provider)];
    }
  }

  // ---- The lists of each tier ----

  function ExportSlots(exports: seq<Export>, ns: Namespace): (slots: Slots)
    ensures |slots| == |exports|
    ensures forall i :: 0 <= i < |exports| ==>
      slots[i] == if exports[i].exported && HasSigil(exports[i].name) == ns.Macro? then Some(exports[i].name) else None
  {
    seq(|exports|, i requires 0 <= i < |exports| =>
      if exports[i].exported && HasSigil(exports[i].name) == ns.Macro? then Some(exports[i].name) else None)
  }

  lemma {:induction false} ExportsArePresent(exports: seq<Export>, ns: Namespace)
    ensures ExportedNames(exports, ns) == Present(ExportSlots(exports, ns))
  {
    if exports != [] {
      ExportsArePresent(exports[1..], ns);
      assert ExportSlots(exports, ns)[1..] == ExportSlots(exports[1..], ns);
    }
  }

  function ImportSlots(names: seq<string>, ns: Namespace): (slots: Slots)
    ensures |slots| == |names|
    ensures forall i :: 0 <= i < |names| ==> slots[i] == if HasSigil(names[i]) == ns.Macro? then Some(names[i]) else None
  {
    seq(|names|, i requires 0 <= i < |names| => if HasSigil(names[i]) == ns.Macro? then Some(names[i]) else None)
  }

  lemma {:induction false} ImportsArePresent(names: seq<string>, ns: Namespace)
    ensures InNamespaceOnly(names, ns) == Present(ImportSlots(names, ns))
  {
    if names != [] {
      ImportsArePresent(names[1..], ns);
      assert ImportSlots(names, ns)[1..] == ImportSlots(names[1..], ns);
    }
  }

  function DefinedSlots(r: Resolver, m: ModuleIndex, names: seq<string>, offset: nat, ns: Namespace): (slots: Slots)
    requires r.Valid()
    ensures |slots| == |names|
    ensures forall i :: 0 <= i < |names| ==> slots[i] == if r.WorkspaceDefines(m, names[i], offset, ns) then Some(names[i]) else None
  {
    seq(|names|, i requires 0 <= i < |names| => if r.WorkspaceDefines(m, names[i], offset, ns) then Some(names[i]) else None)
  }

  lemma {:induction false} DefinedArePresent(r: Resolver, m: ModuleIndex, names: seq<string>, offset: nat, ns: Namespace)
    requires r.Valid()
    ensures Defining(r, m, names, offset, ns) == Present(DefinedSlots(r, m, names, offset, ns))
  {
    if names != [] {
      hide Resolver.WorkspaceDefines;
      DefinedArePresent(r, m, names[1..], offset, ns);
      assert DefinedSlots(r, m, names, offset, ns)[1..] == DefinedSlots(r, m, names[1..], offset, ns);
    }
  }

  /** All exports of one module, by whatever clause or tier they come. */
  lemma ExportsListed(s: Site, tier: nat, list: nat, m: ModuleIndex, provider: Provider, source: Source)
    returns (places: seq<Place>)
    requires forall item: nat, c :: Gives(s, Place(tier, list, item), c) <==> ExportAt(s, item, m, c.name) && c.source == source
    requires forall n :: Shown(Offer(n, provider)) == Candidate(n, source)
    ensures Describes(s, Named(ExportedNames(m.exports, s.ns), provider), places, Place(tier, list, 0), Place(tier, list + 1, 0))
  {
    hide Gives, Describes, Shown;
    var slots := ExportSlots(m.exports, s.ns);
    ExportsArePresent(m.exports, s.ns);
    hide ExportedNames, ExportSlots, Present, Named, HasSigil;
    assert slots[0..] == slots;
    forall item: nat, c: Candidate
      ensures Gives(s, Place(tier, list, item), c) <==>
        item < |slots| && slots[item].Some? && c == Candidate(slots[item].value, source)
    {
      assert c == Candidate(c.name, c.source);
      if item < |m.exports| {
        assert m.exports[item] == Export(m.exports[item].name, m.exports[item].exported);
      }
    }
    assert ListGives(s, tier, list, slots, source);
    places := SlotsListed(s, tier, list, slots, provider, source, 0);
  }

  lemma NothingListed(s: Site, tier: nat, list: nat)
    requires forall item: nat, c :: !Gives(s, Place(tier, list, item), c)
    ensures Describes(s, [], [], Place(tier, list, 0), Place(tier, list + 1, 0))
  {
    hide Gives, Describes;
    forall p, c | Within(Place(tier, list, 0), p, Place(tier, list + 1, 0))
      ensures !Gives(s, p, c)
    {
      assert p == Place(tier, list, p.item);
    }
    DescribesNothing(s, Place(tier, list, 0), Place(tier, list + 1, 0));
  }

  /** What ties a site to a position: its chain of scopes and the module path there. */
  ghost predicate SiteAt(s: Site, offset: nat) {
    && s.r.Valid() && IsChain(s.r.model, s.r.model.ScopeAt(offset), s.chain)
    && s.path == s.r.model.EnclosingModulePath(s.r.model.ScopeAt(offset))
  }

  // Tier 0.

  lemma {:induction false} ScopeListed(s: Site, j: nat, n: nat) returns (places: seq<Place>)
    requires s.r.Valid() && j < |s.chain| && s.chain[j] < |s.r.model.scopes| && n <= |s.r.model.scopes[s.chain[j]].bindings|
    ensures var bindings := s.r.model.scopes[s.chain[j]].bindings;
      Describes(s, ScopeOffers(s.r, bindings[..n], s.ns), places, Place(0, j, |bindings| - n), Place(0, j + 1, 0))
    decreases n
  {
    var bindings := s.r.model.scopes[s.chain[j]].bindings;
    hide Describes, GoesBy, NamespacedName;
    if n == 0 {
      places := [];
      DescribesNothing(s, Place(0, j, |bindings|), Place(0, j + 1, 0));
    } else {
      var more := ScopeListed(s, j, n - 1);
      var b := bindings[n - 1];
      var name := NamespacedName(s.r.model.bindings[b], s.ns);
      assert bindings[..n][..n - 1] == bindings[..n - 1] && bindings[..n][n - 1] == b;
      var p := Place(0, j, |bindings| - n);
      var o := if name.Some? then Some(Offer(name.value, FromBinding(b))) else None;
      forall c
        ensures Gives(s, p, c) <==> o.Some? && c == Shown(o.value)
      {
        NameIs(s.r.model.bindings[b], c.name, s.ns);
        assert c == Candidate(c.name, c.source);
      }
      places := DescribesStep(s, o, p, ScopeOffers(s.r, bindings[..n - 1], s.ns), more, Place(0, j + 1, 0));
    }
  }

  lemma {:induction false} BindingsListed(s: Site, j: nat) returns (places: seq<Place>)
    requires s.r.Valid() && j < |s.chain| && s.chain[j] < |s.r.model.scopes| && IsChain(s.r.model, s.chain[j], s.chain[j..])
    ensures Describes(s, BindingOffers(s.r, s.chain[j], s.ns), places, Place(0, j, 0), Place(1, 0, 0))
    decreases |s.chain| - j
  {
    hide Describes, GoesBy, ScopeOffers;
    var bindings := s.r.model.scopes[s.chain[j]].bindings;
    var here := ScopeListed(s, j, |bindings|);
    assert bindings[..|bindings|] == bindings;
    ChainTail(s.r.model, s.chain[j], s.chain[j..]);
    var next, to := Place(0, j + 1, 0), Place(1, 0, 0);
    var more: seq<Place>;
    if j + 1 < |s.chain| {
      assert s.chain[j..][1..] == s.chain[j + 1..];
      more := BindingsListed(s, j + 1);
      DescribesBoth(s, ScopeOffers(s.r, bindings, s.ns), here, BindingOffers(s.r, s.chain[j + 1], s.ns), more,
                   Place(0, j, 0), next, to);
    } else {
      more := [];
      DescribesNothing(s, next, to);
      DescribesBoth(s, ScopeOffers(s.r, bindings, s.ns), here, [], more, Place(0, j, 0), next, to);
    }
    places := here + more;
  }

  // Tiers 2, 3 and 4.

  /** The module that clause `i` of the file opens, if it is visible here. */
  lemma LoadModule(s: Site, offset: nat, i: nat, m: ModuleIndex)
    requires SiteAt(s, offset) && i < |s.r.model.loads|
    ensures var load := s.r.model.loads[i];
      s.r.UsingModule(load, s.r.model.ScopeAt(offset)) == Some(m) <==>
        && load.kind == LoadKind.Using && !load.hasItems && load.scope in s.chain
        && Opens(s.r.packages, load.leadingDots, load.components, m)
  {
    var load := s.r.model.loads[i];
    OnChain(s.r, s.r.model.ScopeAt(offset), s.chain, load.scope);
    OpensIs(s.r, load.leadingDots, load.components, m);
    hide Opens, IsChain, Resolver.Library, Resolver.Reaches, SemanticModel.ScopeAt;
  }

  /** The exports of the module a clause opens, if it opens one. */
  ghost predicate ByClause(s: Site, item: nat, c: Candidate, components: seq<string>, found: Option<ModuleIndex>) {
    && components != [] && found.Some? && ExportAt(s, item, found.value, c.name)
    && c.source == ByUsing(components[|components| - 1])
  }

  lemma ClauseListed(s: Site, tier: nat, list: nat, components: seq<string>, found: Option<ModuleIndex>)
    returns (places: seq<Place>)
    requires found.Some? ==> components != []
    requires forall item: nat, c :: Gives(s, Place(tier, list, item), c) <==> ByClause(s, item, c, components, found)
    ensures Describes(s, if found.Some? then Named(ExportedNames(found.value.exports, s.ns), FromUsing(components)) else [], places,
                      Place(tier, list, 0), Place(tier, list + 1, 0))
  {
    hide Gives, Describes, ExportedNames, ExportAt;
    if found.Some? {
      places := ExportsListed(s, tier, list, found.value, FromUsing(components), ByUsing(components[|components| - 1]));
    } else {
      NothingListed(s, tier, list);
      places := [];
    }
  }

  lemma LoadGivesIs(s: Site, offset: nat, i: nat, item: nat, c: Candidate)
    requires SiteAt(s, offset) && i < |s.r.model.loads|
    ensures var load := s.r.model.loads[i];
      Gives(s, Place(2, i, item), c) <==> ByClause(s, item, c, load.components, s.r.UsingModule(load, s.r.model.ScopeAt(offset)))
  {
    forall m
      ensures s.r.UsingModule(s.r.model.loads[i], s.r.model.ScopeAt(offset)) == Some(m) <==>
        && s.r.model.loads[i].kind == LoadKind.Using && !s.r.model.loads[i].hasItems && s.r.model.loads[i].scope in s.chain
        && Opens(s.r.packages, s.r.model.loads[i].leadingDots, s.r.model.loads[i].components, m)
    {
      LoadModule(s, offset, i, m);
    }
    hide Opens, IsChain, ExportAt, Resolver.UsingModule, SemanticModel.ScopeAt;
  }

  lemma {:induction false} LoadsListed(s: Site, offset: nat, i: nat) returns (places: seq<Place>)
    requires SiteAt(s, offset) && i <= |s.r.model.loads|
    ensures Describes(s, LoadOffers(s.r, s.r.model.loads[i..], s.r.model.ScopeAt(offset), s.ns), places,
                      Place(2, i, 0), Place(3, 0, 0))
    decreases |s.r.model.loads| - i
  {
    hide Describes, IsChain, ExportAt, ExportedNames, Resolver.UsingModule, SemanticModel.ScopeAt, SemanticModel.EnclosingModulePath;
    var loads, at := s.r.model.loads, s.r.model.ScopeAt(offset);
    if i == |loads| {
      DescribesNothing(s, Place(2, i, 0), Place(3, 0, 0));
      places := [];
    } else {
      assert loads[i..][0] == loads[i] && loads[i..][1..] == loads[i + 1..];
      forall item: nat, c: Candidate
        ensures Gives(s, Place(2, i, item), c) <==> ByClause(s, item, c, loads[i].components, s.r.UsingModule(loads[i], at))
      {
        LoadGivesIs(s, offset, i, item, c);
      }
      hide Gives;
      var more := LoadsListed(s, offset, i + 1);
      var found := s.r.UsingModule(loads[i], at);
      var here := ClauseListed(s, 2, i, loads[i].components, found);
      var offers := if found.Some? then Named(ExportedNames(found.value.exports, s.ns), FromUsing(loads[i].components)) else [];
      DescribesBoth(s, offers, here, LoadOffers(s.r, loads[i + 1..], at, s.ns), more, Place(2, i, 0), Place(2, i + 1, 0),
                    Place(3, 0, 0));
      places := here + more;
    }
  }

  lemma UsingGivesIs(s: Site, host: ModuleIndex, i: nat, item: nat, c: Candidate)
    requires i < |host.usings| && forall m :: HostIs(s.r, s.path, m) <==> m == host
    ensures var u := host.usings[i];
      Gives(s, Place(3, i, item), c) <==> ByClause(s, item, c, u.components, s.r.ResolveUsing(u))
  {
    var u := host.usings[i];
    forall m
      ensures s.r.ResolveUsing(u) == Some(m) <==> Opens(s.r.packages, u.leadingDots, u.components, m)
    {
      OpensIs(s.r, u.leadingDots, u.components, m);
    }
    hide Opens, ExportAt, HostIs, Resolver.ResolveUsing;
  }

  lemma {:induction false} UsingsListed(s: Site, host: ModuleIndex, i: nat) returns (places: seq<Place>)
    requires i <= |host.usings| && forall m :: HostIs(s.r, s.path, m) <==> m == host
    ensures Describes(s, UsingOffers(s.r, host.usings[i..], s.ns), places, Place(3, i, 0), Place(4, 0, 0))
    decreases |host.usings| - i
  {
    hide Describes, ExportAt, HostIs, ExportedNames, Resolver.ResolveUsing;
    var usings := host.usings;
    if i == |usings| {
      DescribesNothing(s, Place(3, i, 0), Place(4, 0, 0));
      places := [];
    } else {
      assert usings[i..][0] == usings[i] && usings[i..][1..] == usings[i + 1..];
      forall item: nat, c: Candidate
        ensures Gives(s, Place(3, i, item), c) <==> ByClause(s, item, c, usings[i].components, s.r.ResolveUsing(usings[i]))
      {
        UsingGivesIs(s, host, i, item, c);
      }
      hide Gives;
      var more := UsingsListed(s, host, i + 1);
      var found := s.r.ResolveUsing(usings[i]);
      var here := ClauseListed(s, 3, i, usings[i].components, found);
      var offers := if found.Some? then Named(ExportedNames(found.value.exports, s.ns), FromUsing(usings[i].components)) else [];
      DescribesBoth(s, offers, here, UsingOffers(s.r, usings[i + 1..], s.ns), more, Place(3, i, 0), Place(3, i + 1, 0),
                    Place(4, 0, 0));
      places := here + more;
    }
  }

  lemma SystemListed(s: Site) returns (places: seq<Place>)
    ensures Describes(s, SystemOffers(s.r, ["Base", "Core"], s.ns), places, Place(4, 0, 0), Place(5, 0, 0))
  {
    var base := SystemModuleListed(s, 0, "Base");
    var core := SystemModuleListed(s, 1, "Core");
    DescribesNothing(s, Place(4, 2, 0), Place(5, 0, 0));
    hide Describes, Gives, ExportedNames, Named;
    assert ["Base", "Core"][1..] == ["Core"] && ["Core"][1..] == [];
    var a, b := OneSystem(s, "Base"), OneSystem(s, "Core");
    DescribesBoth(s, b, core, [], [], Place(4, 1, 0), Place(4, 2, 0), Place(5, 0, 0));
    DescribesBoth(s, a, base, b + [], core + [], Place(4, 0, 0), Place(4, 1, 0), Place(5, 0, 0));
    places := base + (core + []);
    assert SystemOffers(s.r, ["Core"], s.ns) == b + [];
  }

  function OneSystem(s: Site, name: string): seq<Offer> {
    if name !in s.r.packages then [] else Named(ExportedNames(s.r.packages[name].root.exports, s.ns), FromSystem(name))
  }

  lemma SystemModuleListed(s: Site, list: nat, name: string) returns (places: seq<Place>)
    requires list < 2 && name == if list == 0 then "Base" else "Core"
    ensures Describes(s, OneSystem(s, name), places, Place(4, list, 0), Place(4, list + 1, 0))
  {
    hide Describes, ExportedNames, ExportAt;
    if name in s.r.packages {
      places := ExportsListed(s, 4, list, s.r.packages[name].root, FromSystem(name), BySystem(name));
    } else {
      NothingListed(s, 4, list);
      places := [];
    }
  }

  // Tier 1.

  /** The lists of names a module defines, as completion goes through them. */
  function DefinedList(m: ModuleIndex, ns: Namespace, list: nat): seq<string> {
    match ns
    case Value => if list == 0 then GroupNames(m.functions) else if list == 1 then m.types else if list == 2 then m.consts else []
    case Macro => if list == 0 then m.macros else []
  }

  lemma {:induction false} GroupNamesAt(groups: seq<FunctionGroup>)
    ensures |GroupNames(groups)| == |groups| && forall i :: 0 <= i < |groups| ==> GroupNames(groups)[i] == groups[i].name
  {
    if groups != [] {
      GroupNamesAt(groups[1..]);
    }
  }

  lemma NameAtIs(m: ModuleIndex, ns: Namespace, list: nat, item: nat, name: string)
    ensures NameAt(m, ns, list, item, name) <==> item < |DefinedList(m, ns, list)| && name == DefinedList(m, ns, list)[item]
  {
    GroupNamesAt(m.functions);
    hide GroupNames;
  }

  lemma HostAtIs(s: Site, m: ModuleIndex, p: Place, c: Candidate)
    requires forall x :: HostIs(s.r, s.path, x) <==> x == m
    ensures HostAt(s, p, c) <==> HostItem(s, p, c, m)
  {
    assert HostIs(s.r, s.path, m);
    hide HostIs, HostItem;
  }

  lemma DefinedItem(s: Site, offset: nat, m: ModuleIndex, list: nat, item: nat, c: Candidate)
    requires SiteAt(s, offset) && list < 3 && forall x :: HostIs(s.r, s.path, x) <==> x == m
    ensures var slots := DefinedSlots(s.r, m, DefinedList(m, s.ns, list), offset, s.ns);
      Gives(s, Place(1, list, item), c) <==>
        item < |slots| && slots[item].Some? && c == Candidate(slots[item].value, InWorkspace(m.name))
  {
    HostAtIs(s, m, Place(1, list, item), c);
    NameAtIs(m, s.ns, list, item, c.name);
    DefinesRule(s.r, offset, s.chain, m, c.name, s.ns);
    hide HostAt, NameAt, DefinesHere, DefinedList, IsChain, Resolver.WorkspaceDefines, SemanticModel.ScopeAt,
      SemanticModel.EnclosingModulePath;
    assert c == Candidate(c.name, c.source);
  }

  lemma ImportedItem(s: Site, m: ModuleIndex, item: nat, c: Candidate)
    requires forall x :: HostIs(s.r, s.path, x) <==> x == m
    ensures var slots := ImportSlots(m.importedNames, s.ns);
      Gives(s, Place(1, 3, item), c) <==>
        item < |slots| && slots[item].Some? && c == Candidate(slots[item].value, InWorkspace(m.name))
  {
    HostAtIs(s, m, Place(1, 3, item), c);
    hide HostAt, HasSigil;
    assert c == Candidate(c.name, c.source);
  }

  lemma DefinedListed(s: Site, offset: nat, m: ModuleIndex, list: nat) returns (places: seq<Place>)
    requires SiteAt(s, offset) && list < 3 && forall x :: HostIs(s.r, s.path, x) <==> x == m
    ensures Describes(s, Named(Defining(s.r, m, DefinedList(m, s.ns, list), offset, s.ns), FromModule(m.name)), places,
                      Place(1, list, 0), Place(1, list + 1, 0))
  {
    var names := DefinedList(m, s.ns, list);
    var slots := DefinedSlots(s.r, m, names, offset, s.ns);
    forall item: nat, c: Candidate
      ensures Gives(s, Place(1, list, item), c) <==>
        item < |slots| && slots[item].Some? && c == Candidate(slots[item].value, InWorkspace(m.name))
    {
      DefinedItem(s, offset, m, list, item, c);
    }
    DefinedArePresent(s.r, m, names, offset, s.ns);
    hide Gives, Describes, HostIs, SiteAt, DefinedSlots, DefinedList, Present, Named;
    assert slots[0..] == slots;
    places := SlotsListed(s, 1, list, slots, FromModule(m.name), InWorkspace(m.name), 0);
  }

  lemma ImportsListed(s: Site, m: ModuleIndex) returns (places: seq<Place>)
    requires forall x :: HostIs(s.r, s.path, x) <==> x == m
    ensures Describes(s, Named(InNamespaceOnly(m.importedNames, s.ns), FromModule(m.name)), places, Place(1, 3, 0), Place(1, 4, 0))
  {
    var slots := ImportSlots(m.importedNames, s.ns);
    forall item: nat, c: Candidate
      ensures Gives(s, Place(1, 3, item), c) <==>
        item < |slots| && slots[item].Some? && c == Candidate(slots[item].value, InWorkspace(m.name))
    {
      ImportedItem(s, m, item, c);
    }
    ImportsArePresent(m.importedNames, s.ns);
    hide Gives, Describes, HostIs, ImportSlots, Present, Named;
    assert slots[0..] == slots;
    places := SlotsListed(s, 1, 3, slots, FromModule(m.name), InWorkspace(m.name), 0);
  }

  lemma {:induction false} DefiningBoth(r: Resolver, m: ModuleIndex, a: seq<string>, b: seq<string>, offset: nat, ns: Namespace)
    requires r.Valid()
    ensures Defining(r, m, a + b, offset, ns) == Defining(r, m, a, offset, ns) + Defining(r, m, b, offset, ns)
  {
    hide Resolver.WorkspaceDefines;
    if a == [] {
      assert a + b == b;
    } else {
      assert (a + b)[0] == a[0] && (a + b)[1..] == a[1..] + b;
      DefiningBoth(r, m, a[1..], b, offset, ns);
    }
  }

  lemma DefinedInLists(m: ModuleIndex, ns: Namespace)
    ensures DefinedNames(m, ns) == DefinedList(m, ns, 0) + DefinedList(m, ns, 1) + DefinedList(m, ns, 2)
  {
  }

  lemma HostInLists(s: Site, offset: nat, m: ModuleIndex)
    requires s.r.Valid()
    ensures var p := FromModule(m.name);
      Named(ModuleNames(s.r, m, offset, s.ns), p) ==
        Named(Defining(s.r, m, DefinedList(m, s.ns, 0), offset, s.ns), p)
        + Named(Defining(s.r, m, DefinedList(m, s.ns, 1), offset, s.ns), p)
        + Named(Defining(s.r, m, DefinedList(m, s.ns, 2), offset, s.ns), p)
        + Named(InNamespaceOnly(m.importedNames, s.ns), p)
  {
    hide Named, Defining, DefinedList, InNamespaceOnly, DefinedNames;
    var p := FromModule(m.name);
    var a, b, c := DefinedList(m, s.ns, 0), DefinedList(m, s.ns, 1), DefinedList(m, s.ns, 2);
    DefinedInLists(m, s.ns);
    DefiningBoth(s.r, m, a + b, c, offset, s.ns);
    DefiningBoth(s.r, m, a, b, offset, s.ns);
    var x, y, z := Defining(s.r, m, a, offset, s.ns), Defining(s.r, m, b, offset, s.ns), Defining(s.r, m, c, offset, s.ns);
    NamedBoth(x, y, p);
    NamedBoth(x + y, z, p);
    NamedBoth(x + y + z, InNamespaceOnly(m.importedNames, s.ns), p);
  }

  lemma HostListed(s: Site, offset: nat, m: ModuleIndex) returns (places: seq<Place>)
    requires SiteAt(s, offset) && forall x :: HostIs(s.r, s.path, x) <==> x == m
    ensures Describes(s, Named(ModuleNames(s.r, m, offset, s.ns), FromModule(m.name)), places, Place(1, 0, 0), Place(2, 0, 0))
  {
    hide Describes, Gives, HostIs, Named, Defining, DefinedList, InNamespaceOnly, ModuleNames, SiteAt;
    var p := FromModule(m.name);
    var a := DefinedListed(s, offset, m, 0);
    var b := DefinedListed(s, offset, m, 1);
    var c := DefinedListed(s, offset, m, 2);
    var d := ImportsListed(s, m);
    SiteIsValid(s, offset);
    HostInLists(s, offset, m);
    FourLists(s, Named(Defining(s.r, m, DefinedList(m, s.ns, 0), offset, s.ns), p), a,
              Named(Defining(s.r, m, DefinedList(m, s.ns, 1), offset, s.ns), p), b,
              Named(Defining(s.r, m, DefinedList(m, s.ns, 2), offset, s.ns), p), c,
              Named(InNamespaceOnly(m.importedNames, s.ns), p), d);
    places := a + b + c + d;
  }

  lemma SiteIsValid(s: Site, offset: nat)
    requires SiteAt(s, offset)
    ensures s.r.Valid()
  {
  }

  lemma NoFifthList(s: Site)
    ensures Describes(s, [], [], Place(1, 4, 0), Place(2, 0, 0))
  {
    DescribesNothing(s, Place(1, 4, 0), Place(2, 0, 0));
  }

  lemma FourLists(s: Site, x: seq<Offer>, a: seq<Place>, y: seq<Offer>, b: seq<Place>, z: seq<Offer>, c: seq<Place>,
                  u: seq<Offer>, d: seq<Place>)
    requires Describes(s, x, a, Place(1, 0, 0), Place(1, 1, 0)) && Describes(s, y, b, Place(1, 1, 0), Place(1, 2, 0))
    requires Describes(s, z, c, Place(1, 2, 0), Place(1, 3, 0)) && Describes(s, u, d, Place(1, 3, 0), Place(1, 4, 0))
    ensures Describes(s, x + y + z + u, a + b + c + d, Place(1, 0, 0), Place(2, 0, 0))
  {
    hide Describes;
    NoFifthList(s);
    DescribesBoth(s, x, a, y, b, Place(1, 0, 0), Place(1, 1, 0), Place(1, 2, 0));
    DescribesBoth(s, x + y, a + b, z, c, Place(1, 0, 0), Place(1, 2, 0), Place(1, 3, 0));
    DescribesBoth(s, x + y + z, a + b + c, u, d, Place(1, 0, 0), Place(1, 3, 0), Place(1, 4, 0));
    DescribesBoth(s, x + y + z + u, a + b + c + d, [], [], Place(1, 0, 0), Place(1, 4, 0), Place(2, 0, 0));
    assert x + y + z + u + [] == x + y + z + u && a + b + c + d + [] == a + b + c + d;
  }

  // ---- All tiers, and masking ----

  lemma HostSegments(s: Site, offset: nat) returns (first: seq<Place>, second: seq<Place>)
    requires SiteAt(s, offset)
    ensures Describes(s, HostOffers(s.r, offset, s.ns), first, Place(1, 0, 0), Place(2, 0, 0))
    ensures Describes(s, HostUsingOffers(s.r, offset, s.ns), second, Place(3, 0, 0), Place(4, 0, 0))
  {
    forall m
      ensures HostIs(s.r, s.path, m) <==> Host(s.r, offset) == Some(m)
    {
      HostRule(s.r, offset, m);
    }
    if Host(s.r, offset).Some? {
      var m := Host(s.r, offset).value;
      hide Host;
      first := HostListed(s, offset, m);
      second := UsingsListed(s, m, 0);
      assert m.usings[0..] == m.usings;
    } else {
      hide Host, HostIs;
      DescribesNothing(s, Place(1, 0, 0), Place(2, 0, 0));
      DescribesNothing(s, Place(3, 0, 0), Place(4, 0, 0));
      first, second := [], [];
    }
  }

  /** The offers of all tiers are all that the places give, in order. */
  lemma OffersListed(s: Site, offset: nat) returns (places: seq<Place>)
    requires SiteAt(s, offset)
    ensures Describes(s, Offers(s.r, offset, s.ns), places, Place(0, 0, 0), Place(5, 0, 0))
  {
    assert s.chain[0..] == s.chain;
    var a := BindingsListed(s, 0);
    var b, d := HostSegments(s, offset);
    var loads := s.r.model.loads;
    assert loads[0..] == loads;
    var c := LoadsListed(s, offset, 0);
    var e := SystemListed(s);
    var at := s.r.model.ScopeAt(offset);
    hide Describes, BindingOffers, HostOffers, LoadOffers, HostUsingOffers, SystemOffers, IsChain, SemanticModel.ScopeAt;
    var x, y, z := BindingOffers(s.r, at, s.ns), HostOffers(s.r, offset, s.ns), LoadOffers(s.r, loads, at, s.ns);
    var u, v := HostUsingOffers(s.r, offset, s.ns), SystemOffers(s.r, ["Base", "Core"], s.ns);
    DescribesBoth(s, x, a, y, b, Place(0, 0, 0), Place(1, 0, 0), Place(2, 0, 0));
    DescribesBoth(s, x + y, a + b, z, c, Place(0, 0, 0), Place(2, 0, 0), Place(3, 0, 0));
    DescribesBoth(s, x + y + z, a + b + c, u, d, Place(0, 0, 0), Place(3, 0, 0), Place(4, 0, 0));
    DescribesBoth(s, x + y + z + u, a + b + c + d, v, e, Place(0, 0, 0), Place(4, 0, 0), Place(5, 0, 0));
    places := a + b + c + d + e;
  }

  /** No earlier place gives the name. */
  ghost predicate Unmasking(s: Site, p: Place, name: string) {
    forall q, c :: Earlier(q, p) && Gives(s, q, c) ==> c.name != name
  }

  /** The candidates come, in order, from the places whose name no earlier place
      gives. */
  ghost predicate ListsPlaces(s: Site, out: seq<Candidate>, at: seq<Place>) {
    && |out| == |at| && Ascending(at)
    && (forall i :: 0 <= i < |at| ==> Gives(s, at[i], out[i]) && Unmasking(s, at[i], out[i].name))
    && forall p, c :: Gives(s, p, c) && Unmasking(s, p, c.name) ==> p in at
  }

  lemma ShownName(o: Offer)
    ensures Shown(o).name == o.name
  {
  }

  lemma MaskedByOffer(s: Site, offers: seq<Offer>, places: seq<Place>, to: Place, j: nat, k: nat)
    requires Describes(s, offers, places, Place(0, 0, 0), to) && j < k < |offers| && offers[j].name == offers[k].name
    ensures !Unmasking(s, places[k], offers[k].name)
  {
    hide Gives, Shown, Covered, Within;
    ShownName(offers[j]);
    assert Earlier(places[j], places[k]) && Gives(s, places[j], Shown(offers[j]));
  }

  lemma MaskedByPlace(s: Site, offers: seq<Offer>, places: seq<Place>, to: Place, k: nat) returns (i: nat)
    requires Describes(s, offers, places, Place(0, 0, 0), to) && k < |offers|
    requires !Unmasking(s, places[k], offers[k].name)
    ensures i < k && offers[i].name == offers[k].name
  {
    hide Gives, Shown;
    var q, c :| Earlier(q, places[k]) && Gives(s, q, c) && c.name == offers[k].name;
    assert Within(Place(0, 0, 0), q, to);
    assert Covered(places, offers, q, c);
    i :| 0 <= i < |places| && i < |offers| && places[i] == q && Shown(offers[i]) == c;
    ShownName(offers[i]);
  }

  /** A place is unmasked exactly when no offer before its own has the name. */
  lemma UnmaskingIs(s: Site, offers: seq<Offer>, places: seq<Place>, to: Place, k: nat)
    requires Describes(s, offers, places, Place(0, 0, 0), to) && k < |offers|
    ensures Unmasking(s, places[k], offers[k].name) <==> offers[k].name !in Names(offers[..k])
  {
    hide Gives, Unmasking, Covered, Within;
    if offers[k].name in Names(offers[..k]) {
      var j :| 0 <= j < k && offers[j].name == offers[k].name;
      MaskedByOffer(s, offers, places, to, j, k);
    }
    if !Unmasking(s, places[k], offers[k].name) {
      var i := MaskedByPlace(s, offers, places, to, k);
      assert offers[..k][i] == offers[i];
    }
  }

  /** The candidates left of the first `n` offers, with the places they come from. */
  ghost predicate ListsSome(s: Site, offers: seq<Offer>, places: seq<Place>, n: nat, out: seq<Candidate>, at: seq<Place>)
    requires n <= |offers| == |places|
  {
    && |out| == |at| && Ascending(at)
    && (forall i :: 0 <= i < |at| ==> Gives(s, at[i], out[i]) && Unmasking(s, at[i], out[i].name))
    && (forall i :: 0 <= i < |at| ==> at[i] in places[..n])
    && forall k :: 0 <= k < n && Unmasking(s, places[k], offers[k].name) ==> places[k] in at
  }

  lemma DescribesAt(s: Site, offers: seq<Offer>, places: seq<Place>, from: Place, to: Place, n: nat)
    requires Describes(s, offers, places, from, to) && n < |offers|
    ensures |offers| == |places| && Gives(s, places[n], Shown(offers[n]))
    ensures forall p :: p in places[..n] ==> Earlier(p, places[n])
    ensures forall p :: p in places[..n] ==> p in places[..n + 1]
    ensures places[n] in places[..n + 1]
  {
    hide Gives, Covered, Within, Shown;
    assert places[..n + 1][n] == places[n];
    assert forall i :: 0 <= i < n ==> places[..n + 1][i] == places[..n][i];
  }

  lemma ListsOneMore(s: Site, offers: seq<Offer>, places: seq<Place>, n: nat, out: seq<Candidate>, at: seq<Place>)
    requires n < |offers| == |places| && ListsSome(s, offers, places, n, out, at)
    requires Gives(s, places[n], Shown(offers[n]))
    requires forall p :: p in places[..n] ==> Earlier(p, places[n]) && p in places[..n + 1]
    requires places[n] in places[..n + 1]
    ensures if Unmasking(s, places[n], offers[n].name) then
              ListsSome(s, offers, places, n + 1, out + [Shown(offers[n])], at + [places[n]])
            else ListsSome(s, offers, places, n + 1, out, at)
  {
    ShownName(offers[n]);
    hide Gives, Unmasking, Shown, Earlier;
    assert forall p :: p in at ==> p in at + [places[n]];
  }

  /** What is left of the first offers comes from their unmasked places. */
  lemma {:induction false} SomeListed(s: Site, offers: seq<Offer>, places: seq<Place>, to: Place, n: nat) returns (at: seq<Place>)
    requires Describes(s, offers, places, Place(0, 0, 0), to) && n <= |offers| == |places|
    ensures ListsSome(s, offers, places, n, Unmasked(offers[..n]), at)
    decreases n
  {
    hide Describes, ListsSome, Names, Gives, Unmasking, Shown;
    if n == 0 {
      at := [];
      NothingListedYet(s, offers, places);
    } else {
      var before := SomeListed(s, offers, places, to, n - 1);
      DescribesAt(s, offers, places, Place(0, 0, 0), to, n - 1);
      ListsOneMore(s, offers, places, n - 1, Unmasked(offers[..n - 1]), before);
      UnmaskingIs(s, offers, places, to, n - 1);
      assert offers[..n][..n - 1] == offers[..n - 1] && offers[..n][n - 1] == offers[n - 1];
      at := if Unmasking(s, places[n - 1], offers[n - 1].name) then before + [places[n - 1]] else before;
      assert Unmasked(offers[..n - 1]) + [] == Unmasked(offers[..n - 1]);
    }
  }

  lemma NothingListedYet(s: Site, offers: seq<Offer>, places: seq<Place>)
    requires |offers| == |places|
    ensures ListsSome(s, offers, places, 0, Unmasked(offers[..0]), [])
  {
  }

  /** Completion lists, for every position and namespace, the candidates of all
      places in order, without those whose name an earlier place gives. */
  lemma VisibleListsPlaces(r: Resolver, offset: nat, ns: Namespace) returns (s: Site, at: seq<Place>)
    requires r.Valid()
    ensures s.r == r && s.ns == ns && IsChain(r.model, r.model.ScopeAt(offset), s.chain)
    ensures ModulePathIs(r.model, r.model.ScopeAt(offset), s.path)
    ensures ListsPlaces(s, Unmasked(Offers(r, offset, ns)), at)
  {
    hide SiteAt, Offers, Unmasked, IsChain, ModulePathIs, Gives, Unmasking, Describes, Ascending, SemanticModel.ScopeAt;
    s := SiteOf(r, offset, ns);
    var places := OffersListed(s, offset);
    var offers := Offers(r, offset, ns);
    SameNumber(s, offers, places);
    assert offers[..|offers|] == offers;
    at := SomeListed(s, offers, places, Place(5, 0, 0), |offers|);
    AllPlaces(s, offers, places, at);
  }

  lemma SameNumber(s: Site, offers: seq<Offer>, places: seq<Place>)
    requires Describes(s, offers, places, Place(0, 0, 0), Place(5, 0, 0))
    ensures |offers| == |places|
  {
  }

  lemma SiteOf(r: Resolver, offset: nat, ns: Namespace) returns (s: Site)
    requires r.Valid()
    ensures s.r == r && s.ns == ns && SiteAt(s, offset) && IsChain(r.model, r.model.ScopeAt(offset), s.chain)
    ensures ModulePathIs(r.model, r.model.ScopeAt(offset), s.path)
  {
    var at := r.model.ScopeAt(offset);
    hide IsChain, ModulePathIs, SemanticModel.ScopeAt;
    var chain := ChainOf(r.model, at);
    ModulePathIsUnique(r.model, at, r.model.EnclosingModulePath(at));
    s := Site(r, chain, r.model.EnclosingModulePath(at), ns);
  }

  lemma AllPlaces(s: Site, offers: seq<Offer>, places: seq<Place>, at: seq<Place>)
    requires Describes(s, offers, places, Place(0, 0, 0), Place(5, 0, 0))
    requires forall k :: 0 <= k < |offers| && Unmasking(s, places[k], offers[k].name) ==> places[k] in at
    ensures forall p, c :: Gives(s, p, c) && Unmasking(s, p, c.name) ==> p in at
  {
    forall p, c | Gives(s, p, c) && Unmasking(s, p, c.name)
      ensures p in at
    {
      assert Within(Place(0, 0, 0), p, Place(5, 0, 0));
      hide Gives, Unmasking, Shown;
      assert Covered(places, offers, p, c);
      var i :| 0 <= i < |places| && i < |offers| && places[i] == p && Shown(offers[i]) == c;
      ShownName(offers[i]);
    }
  }
}
