/** The cross-file reference index of one file (src/resolve.rs): which sites it
    records under which workspace symbol, and the classification of a cursor
    position that find-references and rename start from. */
module Occurrences {
  import opened Wrappers
  import opened SemanticModel
  import opened Resolver
  import opened Sorting

  datatype OccurrenceKey = OccurrenceKey(package: string, path: ModulePath, ns: Namespace, name: string)

  type Buckets = map<OccurrenceKey, seq<Occurrence>>

  const NAMESPACES: seq<Namespace> := [Value, Namespace.Macro]

  function BucketOf(out: Buckets, key: OccurrenceKey): seq<Occurrence> {
    if key in out then out[key] else []
  }

  function Add(out: Buckets, key: OccurrenceKey, recs: seq<Occurrence>): Buckets {
    out[key := BucketOf(out, key) + recs]
  }

  // ---- Classification ----

  /** The workspace symbol a binding is in a namespace: a module global that the
      module around it defines. */
  function KeyIn(r: Resolver, b: BindingId, ns: Namespace): Option<OccurrenceKey>
    requires r.Valid() && r.workspace.Some? && b < |r.model.bindings|
  {
    var binding := r.model.bindings[b];
    if !r.model.scopes[binding.scope].kind.IsGlobal() then None
    else
      var path := r.FullModulePath(r.workspace.value, binding.scope);
      var m := ModuleAt(r.workspace.value.pkg.root, path);
      var name := NamespacedName(binding, ns);
      if m.None? || name.None? || !r.WorkspaceDefines(m.value, name.value, binding.defRange.start, ns) then None
      else Some(OccurrenceKey(r.workspace.value.pkg.name, path, ns, name.value))
  }

  function BindingKey(r: Resolver, b: BindingId): Option<OccurrenceKey>
    requires r.Valid() && r.workspace.Some? && b < |r.model.bindings|
  {
    var value := KeyIn(r, b, Value);
    if value.Some? then value else KeyIn(r, b, Namespace.Macro)
  }

  function NamespaceOf(ident: IdentRef): Namespace {
    if ident.isMacro then Namespace.Macro else Value
  }

  /** The workspace symbol a free read at `offset` resolves to. */
  function FreeKey(r: Resolver, ident: IdentRef, offset: nat): Option<OccurrenceKey>
    requires r.Valid() && r.workspace.Some?
  {
    match r.Resolve(ident.name, offset, NamespaceOf(ident))
    case ToWorkspace(path, name) => Some(OccurrenceKey(r.workspace.value.pkg.name, path, NamespaceOf(ident), name))
    case _ => None
  }

  function WorkspaceSymbolAt(r: Resolver, offset: nat): Option<OccurrenceKey>
    requires r.Valid()
  {
    if r.workspace.None? then None
    else
      match r.model.IdentAt(offset)
      case Some(i) =>
        var ident := r.model.idents[i];
        if ident.binding.Some? then BindingKey(r, ident.binding.value) else FreeKey(r, ident, offset)
      case None =>
        match r.model.BindingAt(offset)
        case Some(b) => BindingKey(r, b)
        case None => None
  }

  // ---- Gathering ----

  function WithBinding(r: Resolver, out: Buckets, b: BindingId, ns: Namespace): Buckets
    requires r.Valid() && r.workspace.Some? && b < |r.model.bindings|
  {
    var key := KeyIn(r, b, ns);
    if key.None? then out else Add(out, key.value, r.model.Occurrences(b))
  }

  function FromBindings(r: Resolver, n: nat): Buckets
    requires r.Valid() && r.workspace.Some? && n <= |r.model.bindings|
  {
    if n == 0 then map[] else WithBinding(r, WithBinding(r, FromBindings(r, n - 1), n - 1, Value), n - 1, Namespace.Macro)
  }

  function WithIdent(r: Resolver, out: Buckets, ident: IdentRef): Buckets
    requires r.Valid() && r.workspace.Some?
  {
    if ident.binding.Some? then out
    else
      var key := FreeKey(r, ident, ident.range.start);
      if key.None? then out else Add(out, key.value, [Occurrence(ident.range, ident.access, false)])
  }

  function Gathered(r: Resolver, n: nat): Buckets
    requires r.Valid() && r.workspace.Some? && n <= |r.model.idents|
  {
    if n == 0 then FromBindings(r, |r.model.bindings|) else WithIdent(r, Gathered(r, n - 1), r.model.idents[n - 1])
  }

  // ---- Source order, without repetitions ----

  function RangeKey(o: Occurrence): Key {
    (o.range.start, o.range.end)
  }

  /** Of neighbours with the same range, keep the first. */
  function Deduped(recs: seq<Occurrence>): (r: seq<Occurrence>)
    ensures recs != [] ==> r != [] && r[|r| - 1].range == recs[|recs| - 1].range
  {
    if |recs| <= 1 then recs
    else
      var init := Deduped(recs[..|recs| - 1]);
      if recs[|recs| - 1].range == recs[|recs| - 2].range then init else init + [recs[|recs| - 1]]
  }

  function Tidied(recs: seq<Occurrence>): seq<Occurrence> {
    Deduped(SortBy(recs, RangeKey))
  }

  /** Ordered, and no range twice. */
  predicate StrictlyOrdered(recs: seq<Occurrence>) {
    forall i, j :: 0 <= i < j < |recs| ==> Precedes(RangeKey(recs[i]), RangeKey(recs[j]))
  }

  predicate HasRange(recs: seq<Occurrence>, range: Range) {
    exists i :: 0 <= i < |recs| && recs[i].range == range
  }

  lemma HasRangeSnoc(recs: seq<Occurrence>, x: Occurrence, range: Range)
    ensures HasRange(recs + [x], range) <==> HasRange(recs, range) || x.range == range
  {
    var more := recs + [x];
    assert more[|recs|] == x;
    if i :| 0 <= i < |recs| && recs[i].range == range {
      assert more[i] == recs[i];
    }
  }

  lemma SortedRanges(recs: seq<Occurrence>, range: Range)
    ensures OrderedBy(SortBy(recs, RangeKey), RangeKey)
    ensures HasRange(SortBy(recs, RangeKey), range) <==> HasRange(recs, range)
  {
    SortByIs(recs, RangeKey, (0, 0));
    var sorted := SortBy(recs, RangeKey);
    if HasRange(sorted, range) {
      var i :| 0 <= i < |sorted| && sorted[i].range == range;
      assert sorted[i] in multiset(recs);
    }
    if HasRange(recs, range) {
      var i :| 0 <= i < |recs| && recs[i].range == range;
      assert recs[i] in multiset(sorted);
    }
  }

  lemma OrderedFront(recs: seq<Occurrence>)
    requires OrderedBy(recs, RangeKey) && |recs| > 1
    ensures OrderedBy(recs[..|recs| - 1], RangeKey)
    ensures !Precedes(RangeKey(recs[|recs| - 1]), RangeKey(recs[|recs| - 2]))
  {
  }

  lemma StrictSnoc(recs: seq<Occurrence>, x: Occurrence)
    requires StrictlyOrdered(recs) && recs != [] && Precedes(RangeKey(recs[|recs| - 1]), RangeKey(x))
    ensures StrictlyOrdered(recs + [x])
  {
  }

  lemma {:induction false} DedupedOrder(recs: seq<Occurrence>)
    requires OrderedBy(recs, RangeKey)
    ensures StrictlyOrdered(Deduped(recs))
    decreases |recs|
  {
    if |recs| > 1 {
      var init, last := recs[..|recs| - 1], recs[|recs| - 1];
      OrderedFront(recs);
      hide OrderedBy;
      DedupedOrder(init);
      hide StrictlyOrdered;
      if last.range != init[|init| - 1].range {
        StrictSnoc(Deduped(init), last);
      }
    }
  }

  lemma {:induction false} DedupedRanges(recs: seq<Occurrence>, range: Range)
    ensures HasRange(Deduped(recs), range) <==> HasRange(recs, range)
    decreases |recs|
  {
    if |recs| > 1 {
      var init, last := recs[..|recs| - 1], recs[|recs| - 1];
      DedupedRanges(init, range);
      assert recs == init + [last];
      HasRangeSnoc(init, last, range);
      HasRangeSnoc(Deduped(init), last, range);
      assert HasRange(init, init[|init| - 1].range);
      hide HasRange;
    }
  }

  /** Each bucket ends in source order with every range once, and none is lost. */
  lemma TidiedIs(recs: seq<Occurrence>, range: Range)
    ensures StrictlyOrdered(Tidied(recs))
    ensures HasRange(Tidied(recs), range) <==> HasRange(recs, range)
  {
    SortedRanges(recs, range);
    DedupedOrder(SortBy(recs, RangeKey));
    DedupedRanges(SortBy(recs, RangeKey), range);
  }

  lemma {:induction false} DedupedKeeps(recs: seq<Occurrence>, o: Occurrence)
    requires o in Deduped(recs)
    ensures o in recs
    decreases |recs|
  {
    if |recs| > 1 && o in Deduped(recs[..|recs| - 1]) {
      DedupedKeeps(recs[..|recs| - 1], o);
    }
  }

  /** Nothing is made up: every record kept is one that was gathered. */
  lemma TidiedIsPartOf(recs: seq<Occurrence>, o: Occurrence)
    requires o in Tidied(recs)
    ensures o in recs
  {
    DedupedKeeps(SortBy(recs, RangeKey), o);
    SortByIs(recs, RangeKey, (0, 0));
    assert o in multiset(recs);
  }

  lemma LaterInOrder(recs: seq<Occurrence>, x: Occurrence)
    requires OrderedBy(recs + [x], RangeKey) && recs != [] && recs[|recs| - 1].range != x.range
    ensures OrderedBy(recs, RangeKey) && forall i :: 0 <= i < |recs| ==> RangeKey(recs[i]) != RangeKey(x)
  {
    var more, last := recs + [x], recs[|recs| - 1];
    assert !Precedes(RangeKey(more[|recs|]), RangeKey(more[|recs| - 1])) && RangeKey(last) != RangeKey(x);
    assert forall i :: 0 <= i < |recs| ==> more[i] == recs[i];
    forall i | 0 <= i < |recs|
      ensures RangeKey(recs[i]) != RangeKey(x)
    {
      assert i < |recs| - 1 ==> !Precedes(RangeKey(more[|recs| - 1]), RangeKey(more[i]));
    }
  }

  lemma {:induction false} NoneWithKey(recs: seq<Occurrence>, k: Key)
    requires forall i :: 0 <= i < |recs| ==> RangeKey(recs[i]) != k
    ensures WithKey(recs, RangeKey, k) == []
    decreases |recs|
  {
    if recs != [] {
      NoneWithKey(recs[..|recs| - 1], k);
    }
  }

  lemma {:induction false} DedupedIsFirst(recs: seq<Occurrence>, o: Occurrence)
    requires OrderedBy(recs, RangeKey) && o in Deduped(recs)
    ensures WithKey(recs, RangeKey, RangeKey(o)) != [] && WithKey(recs, RangeKey, RangeKey(o))[0] == o
    decreases |recs|
  {
    hide WithKey, Deduped, Precedes, OrderedBy, RangeKey;
    DedupedSplit(recs, o);
    var init, last := recs[..|recs| - 1], recs[|recs| - 1];
    SplitLast(recs);
    WithKeySnoc(init, last, RangeKey, RangeKey(o));
    if init == [] {
      NoneWithKey(init, RangeKey(o));
    } else {
      OrderedFront(recs);
      if o in Deduped(init) {
        DedupedIsFirst(init, o);
      } else {
        LaterInOrder(init, last);
        NoneWithKey(init, RangeKey(last));
      }
    }
  }

  lemma SplitLast(recs: seq<Occurrence>)
    requires recs != []
    ensures recs == recs[..|recs| - 1] + [recs[|recs| - 1]]
  {
  }

  lemma DedupedSplit(recs: seq<Occurrence>, o: Occurrence)
    requires o in Deduped(recs)
    ensures recs != [] && (|recs| == 1 ==> o == recs[0])
    ensures |recs| > 1 ==>
      o in Deduped(recs[..|recs| - 1]) || (o == recs[|recs| - 1] && recs[|recs| - 2].range != o.range)
  {
  }

  lemma {:induction false} FirstOfKey(recs: seq<Occurrence>, k: Key) returns (i: nat)
    requires WithKey(recs, RangeKey, k) != []
    ensures i < |recs| && recs[i] == WithKey(recs, RangeKey, k)[0] && RangeKey(recs[i]) == k
    ensures forall j :: 0 <= j < i ==> RangeKey(recs[j]) != k
    decreases |recs|
  {
    var n := |recs| - 1;
    if WithKey(recs[..n], RangeKey, k) != [] {
      i := FirstOfKey(recs[..n], k);
    } else {
      i := n;
      forall j | 0 <= j < n
        ensures RangeKey(recs[j]) != k
      {
        if RangeKey(recs[j]) == k {
          HasKey(recs[..n], k, j);
        }
      }
    }
  }

  lemma {:induction false} HasKey(recs: seq<Occurrence>, k: Key, j: nat)
    requires j < |recs| && RangeKey(recs[j]) == k
    ensures WithKey(recs, RangeKey, k) != []
    decreases |recs|
  {
    if j < |recs| - 1 {
      HasKey(recs[..|recs| - 1], k, j);
    }
  }

  /** Of several records with one range, the one kept is the first that was gathered. */
  lemma TidiedKeepsFirst(recs: seq<Occurrence>, o: Occurrence) returns (i: nat)
    requires o in Tidied(recs)
    ensures i < |recs| && recs[i] == o && forall j :: 0 <= j < i ==> recs[j].range != o.range
  {
    SortByIs(recs, RangeKey, RangeKey(o));
    hide WithKey, SortBy;
    DedupedIsFirst(SortBy(recs, RangeKey), o);
    i := FirstOfKey(recs, RangeKey(o));
  }

  // ---- The index ----

  function Index(r: Resolver): Buckets
    requires r.Valid()
  {
    if r.workspace.None? then map[]
    else
      TidyAll(Gathered(r, |r.model.idents|))
  }

  function TidyAll(all: Buckets): Buckets {
    map key | key in all :: Tidied(all[key])
  }

  /** Record a binding under each namespace it is a workspace symbol in. */
  method AddBinding(r: Resolver, out: Buckets, b: BindingId) returns (more: Buckets)
    requires r.Valid() && r.workspace.Some? && b < |r.model.bindings|
    ensures more == WithBinding(r, WithBinding(r, out, b, Value), b, Namespace.Macro)
  {
    hide KeyIn, Add;
    more := out;
    for k := 0 to |NAMESPACES|
      invariant k == 0 ==> more == out
      invariant k == 1 ==> more == WithBinding(r, out, b, Value)
      invariant k == 2 ==> more == WithBinding(r, WithBinding(r, out, b, Value), b, Namespace.Macro)
    {
      var key := KeyIn(r, b, NAMESPACES[k]);
      if key.Some? {
        more := Add(more, key.value, r.model.Occurrences(b));
      }
    }
  }

  /** Record a free read under the workspace symbol it resolves to. */
  method AddIdent(r: Resolver, out: Buckets, ident: IdentRef) returns (more: Buckets)
    requires r.Valid() && r.workspace.Some?
    ensures more == WithIdent(r, out, ident)
  {
    hide FreeKey, Add;
    more := out;
    if ident.binding.None? {
      var key := FreeKey(r, ident, ident.range.start);
      if key.Some? {
        more := Add(more, key.value, [Occurrence(ident.range, ident.access, false)]);
      }
    }
  }

  method WorkspaceOccurrences(r: Resolver) returns (out: Buckets)
    requires r.Valid()
    ensures out == Index(r)
  {
    out := map[];
    if r.workspace.None? {
      return;
    }
    hide WithBinding, WithIdent, Tidied;
    for b := 0 to |r.model.bindings|
      invariant out == FromBindings(r, b)
    {
      out := AddBinding(r, out, b);
    }
    for i := 0 to |r.model.idents|
      invariant out == Gathered(r, i)
    {
      out := AddIdent(r, out, r.model.idents[i]);
    }
    out := TidyAll(out);
  }

  // ---- What the buckets hold ----

  lemma HasRangeConcat(a: seq<Occurrence>, b: seq<Occurrence>, range: Range)
    ensures HasRange(a + b, range) <==> HasRange(a, range) || HasRange(b, range)
  {
    var all := a + b;
    if i :| 0 <= i < |a| && a[i].range == range {
      assert all[i] == a[i];
    }
    if i :| 0 <= i < |b| && b[i].range == range {
      assert all[|a| + i] == b[i];
    }
  }

  /** A binding is a workspace symbol in at most one namespace. */
  lemma OneNamespace(r: Resolver, b: BindingId, ns: Namespace)
    requires r.Valid() && r.workspace.Some? && b < |r.model.bindings|
    requires KeyIn(r, b, ns).Some?
    ensures BindingKey(r, b) == KeyIn(r, b, ns)
  {
    hide Resolver.WorkspaceDefines;
  }

  ghost predicate RecordedFor(r: Resolver, n: nat, key: OccurrenceKey, range: Range)
    requires r.Valid() && r.workspace.Some? && n <= |r.model.bindings|
  {
    exists b: nat :: b < n && BindingKey(r, b) == Some(key) && HasRange(r.model.Occurrences(b), range)
  }

  lemma AddHasRange(out: Buckets, at: OccurrenceKey, recs: seq<Occurrence>, key: OccurrenceKey, range: Range)
    ensures HasRange(BucketOf(Add(out, at, recs), key), range) <==>
      HasRange(BucketOf(out, key), range) || (at == key && HasRange(recs, range))
  {
    HasRangeConcat(BucketOf(out, at), recs, range);
    hide HasRange;
  }

  lemma WithBindingHas(r: Resolver, out: Buckets, b: BindingId, ns: Namespace, key: OccurrenceKey, range: Range)
    requires r.Valid() && r.workspace.Some? && b < |r.model.bindings|
    ensures HasRange(BucketOf(WithBinding(r, out, b, ns), key), range) <==>
      HasRange(BucketOf(out, key), range) || (KeyIn(r, b, ns) == Some(key) && HasRange(r.model.Occurrences(b), range))
  {
    hide KeyIn, HasRange, Add;
    if KeyIn(r, b, ns).Some? {
      AddHasRange(out, KeyIn(r, b, ns).value, r.model.Occurrences(b), key, range);
    }
  }

  lemma KeyIsOneOfTwo(r: Resolver, b: BindingId, key: OccurrenceKey)
    requires r.Valid() && r.workspace.Some? && b < |r.model.bindings|
    ensures BindingKey(r, b) == Some(key) <==> KeyIn(r, b, Value) == Some(key) || KeyIn(r, b, Namespace.Macro) == Some(key)
  {
    hide KeyIn;
    if KeyIn(r, b, Value).Some? {
      OneNamespace(r, b, Value);
    }
    if KeyIn(r, b, Namespace.Macro).Some? {
      OneNamespace(r, b, Namespace.Macro);
    }
  }

  lemma {:induction false} FromBindingsHas(r: Resolver, n: nat, key: OccurrenceKey, range: Range)
    requires r.Valid() && r.workspace.Some? && n <= |r.model.bindings|
    ensures HasRange(BucketOf(FromBindings(r, n), key), range) <==> RecordedFor(r, n, key, range)
  {
    hide BindingKey, WithBinding, HasRange, BucketOf, RecordedFor, KeyIn;
    if n == 0 {
      NothingRecorded(r, key, range);
    } else {
      FromBindingsHas(r, n - 1, key, range);
      WithBindingHas(r, FromBindings(r, n - 1), n - 1, Value, key, range);
      WithBindingHas(r, WithBinding(r, FromBindings(r, n - 1), n - 1, Value), n - 1, Namespace.Macro, key, range);
      KeyIsOneOfTwo(r, n - 1, key);
      RecordedStep(r, n - 1, key, range);
    }
  }

  lemma NothingRecorded(r: Resolver, key: OccurrenceKey, range: Range)
    requires r.Valid() && r.workspace.Some?
    ensures !RecordedFor(r, 0, key, range) && !FreeFor(r, 0, key, range) && !HasRange(BucketOf(map[], key), range)
  {
  }

  lemma RecordedStep(r: Resolver, n: nat, key: OccurrenceKey, range: Range)
    requires r.Valid() && r.workspace.Some? && n < |r.model.bindings|
    ensures RecordedFor(r, n + 1, key, range) <==>
      RecordedFor(r, n, key, range) || (BindingKey(r, n) == Some(key) && HasRange(r.model.Occurrences(n), range))
  {
    hide BindingKey, HasRange;
  }

  ghost predicate FreeFor(r: Resolver, n: nat, key: OccurrenceKey, range: Range)
    requires r.Valid() && r.workspace.Some? && n <= |r.model.idents|
  {
    exists i: nat :: i < n && FreeIdentIs(r, i, key, range)
  }

  ghost predicate FreeIdentIs(r: Resolver, i: nat, key: OccurrenceKey, range: Range)
    requires r.Valid() && r.workspace.Some? && i < |r.model.idents|
  {
    var ident := r.model.idents[i];
    ident.binding.None? && ident.range == range && FreeKey(r, ident, range.start) == Some(key)
  }

  lemma FreeStep(r: Resolver, n: nat, key: OccurrenceKey, range: Range)
    requires r.Valid() && r.workspace.Some? && n < |r.model.idents|
    ensures FreeFor(r, n + 1, key, range) <==> FreeFor(r, n, key, range) || FreeIdentIs(r, n, key, range)
  {
    hide FreeIdentIs;
  }

  lemma WithIdentHas(r: Resolver, out: Buckets, i: nat, key: OccurrenceKey, range: Range)
    requires r.Valid() && r.workspace.Some? && i < |r.model.idents|
    ensures HasRange(BucketOf(WithIdent(r, out, r.model.idents[i]), key), range) <==>
      HasRange(BucketOf(out, key), range) || FreeIdentIs(r, i, key, range)
  {
    hide HasRange, FreeKey, Add;
    var ident := r.model.idents[i];
    var at := FreeKey(r, ident, ident.range.start);
    var rec := Occurrence(ident.range, ident.access, false);
    SingleRange(rec, range);
    if ident.binding.None? && at.Some? {
      AddHasRange(out, at.value, [rec], key, range);
    }
  }

  lemma SingleRange(o: Occurrence, range: Range)
    ensures HasRange([o], range) <==> o.range == range
  {
    assert [o][0] == o;
  }

  lemma {:induction false} GatheredHas(r: Resolver, n: nat, key: OccurrenceKey, range: Range)
    requires r.Valid() && r.workspace.Some? && n <= |r.model.idents|
    ensures HasRange(BucketOf(Gathered(r, n), key), range) <==>
      RecordedFor(r, |r.model.bindings|, key, range) || FreeFor(r, n, key, range)
  {
    hide RecordedFor, FreeFor, FromBindings, BucketOf, HasRange, WithIdent, FreeIdentIs;
    if n == 0 {
      FromBindingsHas(r, |r.model.bindings|, key, range);
      NothingRecorded(r, key, range);
    } else {
      GatheredHas(r, n - 1, key, range);
      WithIdentHas(r, Gathered(r, n - 1), n - 1, key, range);
      FreeStep(r, n - 1, key, range);
    }
  }

  /** What the index holds under a key, range by range. */
  lemma IndexHas(r: Resolver, key: OccurrenceKey, range: Range)
    requires r.Valid() && r.workspace.Some?
    ensures HasRange(BucketOf(Index(r), key), range) <==>
      RecordedFor(r, |r.model.bindings|, key, range) || FreeFor(r, |r.model.idents|, key, range)
  {
    GatheredHas(r, |r.model.idents|, key, range);
    TidiedIs(BucketOf(Gathered(r, |r.model.idents|), key), range);
    hide Tidied, RecordedFor, FreeFor, HasRange, Gathered;
    NoRange(range);
  }

  lemma NoRange(range: Range)
    ensures !HasRange([], range)
  {
  }

  /** Every bucket of the index is in source order and holds no range twice. */
  lemma IndexIsOrdered(r: Resolver, key: OccurrenceKey, i: nat, j: nat)
    requires r.Valid() && key in Index(r) && i < j < |Index(r)[key]|
    ensures var a, b := Index(r)[key][i].range, Index(r)[key][j].range;
      a.start < b.start || (a.start == b.start && a.end < b.end)
  {
    TidiedIs(Gathered(r, |r.model.idents|)[key], Range(0, 0));
    hide Tidied, Gathered;
    assert StrictlyOrdered(Index(r)[key]);
  }

  // ---- Classification and index agree ----

  /** The range of the site a cursor position falls on. */
  function SiteAt(m: SemanticModel, offset: nat): Option<Range> {
    match m.IdentAt(offset)
    case Some(i) => Some(m.idents[i].range)
    case None =>
      match m.BindingAt(offset)
      case Some(b) => Some(m.bindings[b].defRange)
      case None => None
  }

  lemma OccurrenceRanges(m: SemanticModel, b: BindingId, range: Range)
    requires b < |m.bindings|
    ensures HasRange(m.Occurrences(b), range) <==>
      || (!m.bindings[b].defRange.IsEmpty() && m.bindings[b].defRange == range)
      || exists i :: 0 <= i < |m.idents| && m.idents[i].binding == Some(b) && m.idents[i].range == range
  {
    var def := if m.bindings[b].defRange.IsEmpty() then [] else [Occurrence(m.bindings[b].defRange, Write, true)];
    HasRangeConcat(def, m.Uses(b, |m.idents|), range);
    UseRanges(m, b, |m.idents|, range);
    if def != [] {
      SingleRange(def[0], range);
    } else {
      NoRange(range);
    }
    hide HasRange;
  }

  lemma {:induction false} UseRanges(m: SemanticModel, b: BindingId, n: nat, range: Range)
    requires n <= |m.idents|
    ensures HasRange(m.Uses(b, n), range) <==> exists i :: 0 <= i < n && m.idents[i].binding == Some(b) && m.idents[i].range == range
  {
    if n == 0 {
      NoRange(range);
    } else {
      UseRanges(m, b, n - 1, range);
      var rec := Occurrence(m.idents[n - 1].range, m.idents[n - 1].access, false);
      HasRangeSnoc(m.Uses(b, n - 1), rec, range);
      hide HasRange;
      assert m.Uses(b, n - 1) + [] == m.Uses(b, n - 1);
    }
  }

  /** Whatever symbol a position is classified as, the index holds that site under
      it; a free read is asked about at its start, as the index does. */
  lemma SymbolIsListed(r: Resolver, offset: nat, key: OccurrenceKey)
    requires r.Valid() && WorkspaceSymbolAt(r, offset) == Some(key)
    requires var i := r.model.IdentAt(offset);
      i.Some? && r.model.idents[i.value].binding.None? ==> offset == r.model.idents[i.value].range.start
    ensures SiteAt(r.model, offset).Some?
    ensures HasRange(BucketOf(Index(r), key), SiteAt(r.model, offset).value)
  {
    var m := r.model;
    match m.IdentAt(offset) {
      case Some(i) =>
        var ident := m.idents[i];
        IndexHas(r, key, ident.range);
        if ident.binding.Some? {
          OccurrenceRanges(m, ident.binding.value, ident.range);
        } else {
          assert FreeIdentIs(r, i, key, ident.range);
        }
      case None =>
        var b := m.BindingAt(offset).value;
        IndexHas(r, key, m.bindings[b].defRange);
        OccurrenceRanges(m, b, m.bindings[b].defRange);
    }
    hide HasRange, BindingKey, FreeKey, Index, BucketOf;
  }

  /** No identifier or definition starts inside, or right after, another one. */
  ghost predicate Apart(m: SemanticModel) {
    && (forall i, j :: 0 <= i < |m.idents| && 0 <= j < |m.idents| && i != j ==>
          !m.idents[j].range.ContainsInclusive(m.idents[i].range.start))
    && (forall b, j :: 0 <= b < |m.bindings| && 0 <= j < |m.idents| && !m.bindings[b].defRange.IsEmpty() ==>
          !m.idents[j].range.ContainsInclusive(m.bindings[b].defRange.start))
    && (forall b, c :: 0 <= b < |m.bindings| && 0 <= c < |m.bindings| && b != c ==>
          m.bindings[b].defRange.IsEmpty() || m.bindings[c].defRange.IsEmpty()
          || !m.bindings[c].defRange.ContainsInclusive(m.bindings[b].defRange.start))
    && (forall i :: 0 <= i < |m.idents| ==> m.idents[i].range.start <= m.idents[i].range.end)
  }

  lemma IdentIsAtItsStart(m: SemanticModel, i: nat)
    requires Apart(m) && i < |m.idents|
    ensures m.IdentAt(m.idents[i].range.start) == Some(i)
  {
    assert m.idents[i].range.ContainsInclusive(m.idents[i].range.start);
  }

  lemma DefinitionIsAtItsStart(m: SemanticModel, b: nat)
    requires Apart(m) && b < |m.bindings| && !m.bindings[b].defRange.IsEmpty()
    ensures m.IdentAt(m.bindings[b].defRange.start) == None
    ensures m.BindingAt(m.bindings[b].defRange.start) == Some(b)
  {
    assert m.bindings[b].defRange.ContainsInclusive(m.bindings[b].defRange.start);
  }

  /** With sites apart, the index under a key is exactly the sites that, asked
      about at their start, are classified as that key. */
  lemma IndexIsTheSymbols(r: Resolver, key: OccurrenceKey, range: Range)
    requires r.Valid() && r.workspace.Some? && Apart(r.model)
    ensures HasRange(BucketOf(Index(r), key), range) <==>
      SiteAt(r.model, range.start) == Some(range) && WorkspaceSymbolAt(r, range.start) == Some(key)
  {
    var m := r.model;
    IndexHas(r, key, range);
    hide HasRange, BindingKey, FreeKey, Index, BucketOf;
    if SiteAt(m, range.start) == Some(range) && WorkspaceSymbolAt(r, range.start) == Some(key) {
      SymbolIsListed(r, range.start, key);
    }
    if RecordedFor(r, |m.bindings|, key, range) {
      var b: nat :| b < |m.bindings| && BindingKey(r, b) == Some(key) && HasRange(m.Occurrences(b), range);
      RecordedIsSymbol(r, b, key, range);
    }
    if FreeFor(r, |m.idents|, key, range) {
      var i: nat :| i < |m.idents| && FreeIdentIs(r, i, key, range);
      IdentIsAtItsStart(m, i);
    }
  }

  lemma RecordedIsSymbol(r: Resolver, b: nat, key: OccurrenceKey, range: Range)
    requires r.Valid() && r.workspace.Some? && Apart(r.model)
    requires b < |r.model.bindings| && BindingKey(r, b) == Some(key) && HasRange(r.model.Occurrences(b), range)
    ensures SiteAt(r.model, range.start) == Some(range) && WorkspaceSymbolAt(r, range.start) == Some(key)
  {
    var m := r.model;
    OccurrenceRanges(m, b, range);
    hide HasRange, BindingKey, FreeKey, Apart;
    if !m.bindings[b].defRange.IsEmpty() && m.bindings[b].defRange == range {
      DefinitionIsAtItsStart(m, b);
    } else {
      var i: nat :| i < |m.idents| && m.idents[i].binding == Some(b) && m.idents[i].range == range;
      IdentIsAtItsStart(m, i);
    }
  }
}
