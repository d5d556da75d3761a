/** What the reference index holds (src/resolve.rs), said of the file's bindings and
    identifiers: which symbol a binding is, which one a free read means, and which
    records stand under it. */
module OccurrenceRules {
  import opened Wrappers
  import opened SemanticModel
  import opened Resolver
  import opened ResolutionRules
  import opened Occurrences

  /** A binding made in a file or module scope, that goes by the name in the
      namespace, is the symbol if the workspace module of that scope defines it as
      seen from the definition. */
  ghost predicate IsSymbol(r: Resolver, b: BindingId, key: OccurrenceKey) {
    && r.Valid() && r.workspace.Some? && b < |r.model.bindings|
    && var binding := r.model.bindings[b];
       && (r.model.scopes[binding.scope].kind.File? || r.model.scopes[binding.scope].kind.Module?)
       && GoesBy(binding, key.name, key.ns) && key.package == r.workspace.value.pkg.name
       && DefinedAround(r, binding.scope, binding.defRange.start, key)
  }

  /** The workspace module a scope belongs to has the key's path and defines its name,
      as seen from a position. */
  ghost predicate DefinedAround(r: Resolver, scope: ScopeId, offset: nat, key: OccurrenceKey)
    requires r.Valid() && r.workspace.Some?
  {
    exists path, m ::
      && ModulePathIs(r.model, scope, path) && key.path == r.workspace.value.host + path
      && HostIs(r, path, m) && DefinesFrom(r, offset, m, key.name, key.ns)
  }

  /** The module defines the name, as seen from a position. */
  ghost predicate DefinesFrom(r: Resolver, offset: nat, m: ModuleIndex, name: string, ns: Namespace)
    requires r.Valid()
  {
    exists chain, path ::
      && IsChain(r.model, r.model.ScopeAt(offset), chain) && ModulePathIs(r.model, r.model.ScopeAt(offset), path)
      && DefinesHere(r, chain, path, m, name, ns)
  }

  /** A free read means the symbol that resolving its name at a position leads to in
      the workspace. */
  ghost predicate MeansSymbol(r: Resolver, ident: IdentRef, offset: nat, key: OccurrenceKey) {
    && r.Valid() && r.workspace.Some? && key.package == r.workspace.value.pkg.name
    && key.ns == (if ident.isMacro then Namespace.Macro else Value)
    && r.Resolve(ident.name, offset, key.ns) == ToWorkspace(key.path, key.name)
  }

  lemma DefinesFromIs(r: Resolver, offset: nat, m: ModuleIndex, name: string, ns: Namespace)
    requires r.Valid()
    ensures DefinesFrom(r, offset, m, name, ns) <==> r.WorkspaceDefines(m, name, offset, ns)
  {
    var at := r.model.ScopeAt(offset);
    var chain := ChainOf(r.model, at);
    ModulePathIsUnique(r.model, at, r.model.EnclosingModulePath(at));
    DefinesRule(r, offset, chain, m, name, ns);
    hide IsChain, ModulePathIs, DefinesHere, SemanticModel.ScopeAt, SemanticModel.EnclosingModulePath, Resolver.WorkspaceDefines;
    if DefinesFrom(r, offset, m, name, ns) {
      var other, path :| IsChain(r.model, at, other) && ModulePathIs(r.model, at, path) && DefinesHere(r, other, path, m, name, ns);
      ChainIsUnique(r.model, at, chain, other);
      ModulePathIsUnique(r.model, at, path);
    }
  }

  lemma DefinedAroundIs(r: Resolver, scope: ScopeId, offset: nat, key: OccurrenceKey)
    requires r.Valid() && r.workspace.Some? && scope < |r.model.scopes|
    ensures var path := r.workspace.value.host + r.model.EnclosingModulePath(scope);
      var found := ModuleAt(r.workspace.value.pkg.root, path);
      DefinedAround(r, scope, offset, key) <==>
        key.path == path && found.Some? && r.WorkspaceDefines(found.value, key.name, offset, key.ns)
  {
    var own := r.model.EnclosingModulePath(scope);
    var root, full := r.workspace.value.pkg.root, r.workspace.value.host + own;
    ModulePathIsUnique(r.model, scope, own);
    hide LeadsTo, DefinesFrom, ModulePathIs, ModuleAt, SemanticModel.EnclosingModulePath, Resolver.WorkspaceDefines;
    var found := ModuleAt(root, full);
    if found.Some? {
      PathIs(root, full, found.value);
      DefinesFromIs(r, offset, found.value, key.name, key.ns);
    }
    if DefinedAround(r, scope, offset, key) {
      var path, m :|
        && ModulePathIs(r.model, scope, path) && key.path == r.workspace.value.host + path
        && HostIs(r, path, m) && DefinesFrom(r, offset, m, key.name, key.ns);
      ModulePathIsUnique(r.model, scope, path);
      PathIs(root, full, m);
    }
  }

  lemma KeyRule(r: Resolver, b: BindingId, ns: Namespace, key: OccurrenceKey)
    requires r.Valid() && r.workspace.Some? && b < |r.model.bindings|
    ensures KeyIn(r, b, ns) == Some(key) <==> IsSymbol(r, b, key) && key.ns == ns
  {
    var binding := r.model.bindings[b];
    NameIs(binding, key.name, ns);
    DefinedAroundIs(r, binding.scope, binding.defRange.start, key);
    hide DefinedAround, GoesBy, NamespacedName, ModuleAt, SemanticModel.EnclosingModulePath, Resolver.WorkspaceDefines;
  }

  /** A binding is classified as the one symbol it is, in whichever namespace. */
  lemma BindingRuleIs(r: Resolver, b: BindingId, key: OccurrenceKey)
    requires r.Valid() && r.workspace.Some? && b < |r.model.bindings|
    ensures BindingKey(r, b) == Some(key) <==> IsSymbol(r, b, key)
  {
    KeyRule(r, b, Value, key);
    KeyRule(r, b, Namespace.Macro, key);
    KeyIsOneOfTwo(r, b, key);
    hide KeyIn, BindingKey, IsSymbol;
  }

  lemma FreeRule(r: Resolver, ident: IdentRef, offset: nat, key: OccurrenceKey)
    requires r.Valid() && r.workspace.Some?
    ensures FreeKey(r, ident, offset) == Some(key) <==> MeansSymbol(r, ident, offset, key)
  {
    hide Resolver.Resolve;
  }

  // ---- The classification of a position ----

  predicate Touches(range: Range, offset: nat) {
    range.start <= offset <= range.end
  }

  /** The first identifier around a position, or else the first definition. */
  ghost predicate IdentHere(m: SemanticModel, offset: nat, i: nat) {
    && i < |m.idents| && Touches(m.idents[i].range, offset)
    && forall j: nat :: j < i ==> !Touches(m.idents[j].range, offset)
  }

  ghost predicate DefinitionHere(m: SemanticModel, offset: nat, b: BindingId) {
    && (forall i: nat :: i < |m.idents| ==> !Touches(m.idents[i].range, offset))
    && b < |m.bindings| && DefinitionAround(m.bindings[b], offset)
    && forall c: nat :: c < b ==> !DefinitionAround(m.bindings[c], offset)
  }

  predicate DefinitionAround(b: Binding, offset: nat) {
    b.defRange.start < b.defRange.end && Touches(b.defRange, offset)
  }

  lemma IdentHereIs(m: SemanticModel, offset: nat, i: nat)
    ensures IdentHere(m, offset, i) <==> m.IdentAt(offset) == Some(i)
  {
    var found := m.FirstIdent(offset, 0);
    assert forall j :: 0 <= j < |m.idents| ==> m.idents[j].range.ContainsInclusive(offset) == Touches(m.idents[j].range, offset);
  }

  lemma DefinitionHereIs(m: SemanticModel, offset: nat, b: BindingId)
    ensures DefinitionHere(m, offset, b) <==> m.IdentAt(offset) == None && m.BindingAt(offset) == Some(b)
  {
    var found, ident := m.FirstBinding(offset, 0), m.FirstIdent(offset, 0);
    assert forall j :: 0 <= j < |m.idents| ==> m.idents[j].range.ContainsInclusive(offset) == Touches(m.idents[j].range, offset);
    assert forall c :: 0 <= c < |m.bindings| ==>
      DefinitionAround(m.bindings[c], offset) ==
        (!m.bindings[c].defRange.IsEmpty() && m.bindings[c].defRange.ContainsInclusive(offset));
    hide DefinitionAround, Touches;
  }

  ghost predicate BoundHere(r: Resolver, offset: nat, key: OccurrenceKey) {
    exists i: nat ::
      IdentHere(r.model, offset, i) && r.model.idents[i].binding.Some? && IsSymbol(r, r.model.idents[i].binding.value, key)
  }

  ghost predicate FreeHere(r: Resolver, offset: nat, key: OccurrenceKey) {
    exists i: nat ::
      IdentHere(r.model, offset, i) && r.model.idents[i].binding.None? && MeansSymbol(r, r.model.idents[i], offset, key)
  }

  ghost predicate DefinedHere(r: Resolver, offset: nat, key: OccurrenceKey) {
    exists b: nat :: DefinitionHere(r.model, offset, b) && IsSymbol(r, b, key)
  }

  /** A position is classified as a symbol exactly when the identifier around it is
      bound to that symbol or, free, means it, or when it stands on the symbol's
      definition. */
  lemma SymbolRule(r: Resolver, offset: nat, key: OccurrenceKey)
    requires r.Valid()
    ensures WorkspaceSymbolAt(r, offset) == Some(key) <==>
      BoundHere(r, offset, key) || FreeHere(r, offset, key) || DefinedHere(r, offset, key)
  {
    var m := r.model;
    var i, b := m.IdentAt(offset), m.BindingAt(offset);
    forall j: nat
      ensures IdentHere(m, offset, j) <==> i == Some(j)
      ensures DefinitionHere(m, offset, j) <==> i == None && b == Some(j)
    {
      IdentHereIs(m, offset, j);
      DefinitionHereIs(m, offset, j);
    }
    hide IdentHere, DefinitionHere;
    if r.workspace.Some? {
      if i.Some? && m.idents[i.value].binding.Some? {
        BindingRuleIs(r, m.idents[i.value].binding.value, key);
      }
      if i.Some? {
        FreeRule(r, m.idents[i.value], offset, key);
      }
      if b.Some? {
        BindingRuleIs(r, b.value, key);
      }
      hide IsSymbol, MeansSymbol, BindingKey, FreeKey, SemanticModel.IdentAt, SemanticModel.BindingAt;
    }
  }

  // ---- The records of a bucket ----

  predicate IsDefinition(b: Binding, rec: Occurrence) {
    b.defRange.start < b.defRange.end && rec == Occurrence(b.defRange, Write, true)
  }

  predicate IsUse(ident: IdentRef, rec: Occurrence) {
    rec == Occurrence(ident.range, ident.access, false)
  }

  ghost predicate UsesBinding(m: SemanticModel, b: BindingId, n: nat, rec: Occurrence) {
    exists i: nat :: i < n && i < |m.idents| && m.idents[i].binding == Some(b) && IsUse(m.idents[i], rec)
  }

  /** The definition and the uses of a binding that is the symbol. */
  ghost predicate OfBinding(r: Resolver, n: nat, key: OccurrenceKey, rec: Occurrence) {
    exists b: nat :: b < n && b < |r.model.bindings| && IsSymbol(r, b, key)
      && (IsDefinition(r.model.bindings[b], rec) || UsesBinding(r.model, b, |r.model.idents|, rec))
  }

  /** The free reads that mean the symbol where they start. */
  ghost predicate OfRead(r: Resolver, n: nat, key: OccurrenceKey, rec: Occurrence) {
    exists i: nat :: i < n && i < |r.model.idents| && r.model.idents[i].binding.None?
      && MeansSymbol(r, r.model.idents[i], r.model.idents[i].range.start, key) && IsUse(r.model.idents[i], rec)
  }

  ghost predicate RecordOf(r: Resolver, key: OccurrenceKey, rec: Occurrence) {
    OfBinding(r, |r.model.bindings|, key, rec) || OfRead(r, |r.model.idents|, key, rec)
  }

  lemma {:induction false} UsesHold(m: SemanticModel, b: BindingId, n: nat, rec: Occurrence)
    requires n <= |m.idents|
    ensures rec in m.Uses(b, n) <==> UsesBinding(m, b, n, rec)
    decreases n
  {
    if n > 0 {
      UsesHold(m, b, n - 1, rec);
      assert UsesBinding(m, b, n, rec) <==>
        UsesBinding(m, b, n - 1, rec) || (m.idents[n - 1].binding == Some(b) && IsUse(m.idents[n - 1], rec));
    }
  }

  lemma OccurrencesHold(m: SemanticModel, b: BindingId, rec: Occurrence)
    requires b < |m.bindings|
    ensures rec in m.Occurrences(b) <==> IsDefinition(m.bindings[b], rec) || UsesBinding(m, b, |m.idents|, rec)
  {
    UsesHold(m, b, |m.idents|, rec);
    hide UsesBinding;
  }

  lemma AddHolds(out: Buckets, at: OccurrenceKey, recs: seq<Occurrence>, key: OccurrenceKey, rec: Occurrence)
    ensures rec in BucketOf(Add(out, at, recs), key) <==> rec in BucketOf(out, key) || (at == key && rec in recs)
  {
  }

  lemma WithBindingHolds(r: Resolver, out: Buckets, b: BindingId, ns: Namespace, key: OccurrenceKey, rec: Occurrence)
    requires r.Valid() && r.workspace.Some? && b < |r.model.bindings|
    ensures rec in BucketOf(WithBinding(r, out, b, ns), key) <==>
      rec in BucketOf(out, key) || (KeyIn(r, b, ns) == Some(key) && rec in r.model.Occurrences(b))
  {
    hide KeyIn, Add;
    if KeyIn(r, b, ns).Some? {
      AddHolds(out, KeyIn(r, b, ns).value, r.model.Occurrences(b), key, rec);
    }
  }

  lemma OfBindingStep(r: Resolver, n: nat, key: OccurrenceKey, rec: Occurrence)
    requires r.Valid() && n < |r.model.bindings|
    ensures OfBinding(r, n + 1, key, rec) <==>
      OfBinding(r, n, key, rec)
      || (IsSymbol(r, n, key) && (IsDefinition(r.model.bindings[n], rec) || UsesBinding(r.model, n, |r.model.idents|, rec)))
  {
    hide IsSymbol, UsesBinding;
  }

  lemma BothHold(r: Resolver, out: Buckets, b: BindingId, key: OccurrenceKey, rec: Occurrence)
    requires r.Valid() && r.workspace.Some? && b < |r.model.bindings|
    ensures rec in BucketOf(WithBinding(r, WithBinding(r, out, b, Value), b, Namespace.Macro), key) <==>
      || rec in BucketOf(out, key)
      || (IsSymbol(r, b, key) && (IsDefinition(r.model.bindings[b], rec) || UsesBinding(r.model, b, |r.model.idents|, rec)))
  {
    hide IsSymbol, WithBinding, BucketOf, KeyIn, UsesBinding, IsDefinition, SemanticModel.Occurrences;
    WithBindingHolds(r, out, b, Value, key, rec);
    WithBindingHolds(r, WithBinding(r, out, b, Value), b, Namespace.Macro, key, rec);
    KeyRule(r, b, Value, key);
    KeyRule(r, b, Namespace.Macro, key);
    OccurrencesHold(r.model, b, rec);
  }

  lemma {:induction false} FromBindingsHold(r: Resolver, n: nat, key: OccurrenceKey, rec: Occurrence)
    requires r.Valid() && r.workspace.Some? && n <= |r.model.bindings|
    ensures rec in BucketOf(FromBindings(r, n), key) <==> OfBinding(r, n, key, rec)
    decreases n
  {
    hide IsSymbol, WithBinding, UsesBinding, OfBinding, IsDefinition;
    if n == 0 {
      assert rec !in BucketOf(map[], key);
      NothingOf(r, key, rec);
    } else {
      hide BucketOf;
      FromBindingsHold(r, n - 1, key, rec);
      BothHold(r, FromBindings(r, n - 1), n - 1, key, rec);
      OfBindingStep(r, n - 1, key, rec);
    }
  }

  lemma NothingOf(r: Resolver, key: OccurrenceKey, rec: Occurrence)
    ensures !OfBinding(r, 0, key, rec)
  {
  }

  lemma WithIdentHolds(r: Resolver, out: Buckets, i: nat, key: OccurrenceKey, rec: Occurrence)
    requires r.Valid() && r.workspace.Some? && i < |r.model.idents|
    ensures rec in BucketOf(WithIdent(r, out, r.model.idents[i]), key) <==>
      || rec in BucketOf(out, key)
      || (r.model.idents[i].binding.None? && MeansSymbol(r, r.model.idents[i], r.model.idents[i].range.start, key)
          && IsUse(r.model.idents[i], rec))
  {
    var ident := r.model.idents[i];
    FreeRule(r, ident, ident.range.start, key);
    hide FreeKey, MeansSymbol, Add;
    var found := FreeKey(r, ident, ident.range.start);
    if ident.binding.None? && found.Some? {
      AddHolds(out, found.value, [Occurrence(ident.range, ident.access, false)], key, rec);
    }
  }

  lemma {:induction false} GatheredHold(r: Resolver, n: nat, key: OccurrenceKey, rec: Occurrence)
    requires r.Valid() && r.workspace.Some? && n <= |r.model.idents|
    ensures rec in BucketOf(Gathered(r, n), key) <==> OfBinding(r, |r.model.bindings|, key, rec) || OfRead(r, n, key, rec)
    decreases n
  {
    hide OfBinding, MeansSymbol, WithIdent, BucketOf, FromBindings;
    if n == 0 {
      FromBindingsHold(r, |r.model.bindings|, key, rec);
    } else {
      GatheredHold(r, n - 1, key, rec);
      WithIdentHolds(r, Gathered(r, n - 1), n - 1, key, rec);
      assert OfRead(r, n, key, rec) <==>
        OfRead(r, n - 1, key, rec)
        || (r.model.idents[n - 1].binding.None? && MeansSymbol(r, r.model.idents[n - 1], r.model.idents[n - 1].range.start, key)
            && IsUse(r.model.idents[n - 1], rec));
    }
  }

  /** The index makes no record up, and leaves no range of a record out. */
  lemma IndexRecords(r: Resolver, key: OccurrenceKey, rec: Occurrence)
    requires r.Valid() && r.workspace.Some?
    ensures rec in BucketOf(Index(r), key) ==> RecordOf(r, key, rec)
    ensures RecordOf(r, key, rec) ==> HasRange(BucketOf(Index(r), key), rec.range)
  {
    var gathered := Gathered(r, |r.model.idents|);
    GatheredHold(r, |r.model.idents|, key, rec);
    hide OfBinding, OfRead, Gathered, Tidied;
    if rec in BucketOf(Index(r), key) {
      TidiedIsPartOf(gathered[key], rec);
    }
    if RecordOf(r, key, rec) {
      TidiedIs(gathered[key], rec.range);
      var k :| 0 <= k < |gathered[key]| && gathered[key][k] == rec;
      assert HasRange(gathered[key], rec.range);
    }
  }

  lemma SameRecord(r: Resolver, key: OccurrenceKey, a: Occurrence, b: Occurrence)
    requires r.Valid() && Apart(r.model) && RecordOf(r, key, a) && RecordOf(r, key, b) && a.range == b.range
    ensures a == b
  {
    var da, ia := Site(r, key, a);
    var db, ib := Site(r, key, b);
    var m := r.model;
    hide RecordOf;
    if da < |m.bindings| {
      DefinitionIsAtItsStart(m, da);
    } else {
      IdentIsAtItsStart(m, ia);
    }
    if db < |m.bindings| {
      DefinitionIsAtItsStart(m, db);
    } else {
      IdentIsAtItsStart(m, ib);
    }
    hide Apart, SemanticModel.IdentAt, SemanticModel.BindingAt;
  }

  /** The definition or the identifier a record comes from. */
  lemma Site(r: Resolver, key: OccurrenceKey, rec: Occurrence) returns (b: nat, i: nat)
    requires r.Valid() && RecordOf(r, key, rec)
    ensures b < |r.model.bindings| ==> IsDefinition(r.model.bindings[b], rec)
    ensures b >= |r.model.bindings| ==> i < |r.model.idents| && IsUse(r.model.idents[i], rec)
  {
    hide IsSymbol, MeansSymbol;
    b, i := |r.model.bindings|, 0;
    if OfBinding(r, |r.model.bindings|, key, rec) {
      var c: nat :| c < |r.model.bindings| && IsSymbol(r, c, key)
        && (IsDefinition(r.model.bindings[c], rec) || UsesBinding(r.model, c, |r.model.idents|, rec));
      if IsDefinition(r.model.bindings[c], rec) {
        b := c;
      } else {
        i :| i < |r.model.idents| && r.model.idents[i].binding == Some(c) && IsUse(r.model.idents[i], rec);
      }
    } else {
      i :| i < |r.model.idents| && r.model.idents[i].binding.None?
        && MeansSymbol(r, r.model.idents[i], r.model.idents[i].range.start, key) && IsUse(r.model.idents[i], rec);
    }
  }

  /** With sites apart, a bucket is exactly the definitions and uses of the bindings
      that are the symbol and the free reads that mean it, each with its access. */
  lemma IndexIsTheRecords(r: Resolver, key: OccurrenceKey, rec: Occurrence)
    requires r.Valid() && r.workspace.Some? && Apart(r.model)
    ensures rec in BucketOf(Index(r), key) <==> RecordOf(r, key, rec)
  {
    IndexRecords(r, key, rec);
    hide RecordOf, Index, BucketOf, Apart;
    if RecordOf(r, key, rec) {
      var bucket := BucketOf(Index(r), key);
      var k :| 0 <= k < |bucket| && bucket[k].range == rec.range;
      IndexRecords(r, key, bucket[k]);
      SameRecord(r, key, rec, bucket[k]);
    }
  }
}
