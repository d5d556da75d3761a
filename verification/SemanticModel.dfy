/** The per-file semantic model that name resolution walks (src/semantic.rs with
    src/semantic/scope.rs, binding.rs and import.rs): flat arenas of scopes,
    bindings, identifiers and loaded modules, referring to one another by index.
    The builder that fills them is not part of this model; `Valid` states what
    its arenas satisfy. */
module SemanticModel {
  import opened Sequences
  import opened Wrappers

  datatype Range = Range(start: nat, end: nat) {
    predicate ContainsInclusive(offset: nat) {
      start <= offset <= end
    }

    predicate IsEmpty() {
      start >= end
    }
  }

  type ScopeId = nat
  type BindingId = nat

  datatype ScopeKind = File | Module | Function | Let | Comprehension | Struct | For | While | Try | Catch | Finally {
    predicate IsGlobal() {
      File? || Module?
    }
  }

  datatype BindingKind =
    | Global | Local | Const | Param | KeywordParam | ForVar | LetVar | CatchParam | TypeParam | Field
    | Function | Macro | Type | Module | Import

  datatype Access = Read | Write | ReadWrite

  datatype LoadKind = Using | Import

  datatype Scope = Scope(
    kind: ScopeKind,
    parent: Option<ScopeId>,
    range: Range,
    bindings: seq<BindingId>,
    moduleName: Option<string>)

  datatype Binding = Binding(name: string, kind: BindingKind, scope: ScopeId, defRange: Range)

  datatype IdentRef = IdentRef(name: string, range: Range, access: Access, isMacro: bool, binding: Option<BindingId>)

  /** `hasItems` tells `using X: a` from the whole-module `using X`. */
  datatype ModuleLoad = ModuleLoad(kind: LoadKind, leadingDots: nat, components: seq<string>, hasItems: bool, scope: ScopeId)

  datatype Occurrence = Occurrence(range: Range, access: Access, isDef: bool)

  datatype SemanticModel = SemanticModel(
    scopes: seq<Scope>,
    bindings: seq<Binding>,
    idents: seq<IdentRef>,
    loads: seq<ModuleLoad>)
  {
    /** The file scope exists, every parent stands before its children, and every
        index is in range. */
    ghost predicate Valid() {
      && |scopes| > 0
      && (forall i :: 0 <= i < |scopes| && scopes[i].parent.Some? ==> scopes[i].parent.value < i)
      && (forall i, k :: 0 <= i < |scopes| && 0 <= k < |scopes[i].bindings| ==> scopes[i].bindings[k] < |bindings|)
      && (forall b :: 0 <= b < |bindings| ==> bindings[b].scope < |scopes|)
      && (forall i :: 0 <= i < |idents| && idents[i].binding.Some? ==> idents[i].binding.value < |bindings|)
    }

    /** The scope a read in `id` looks into next: none past a global scope. */
    function Outward(id: ScopeId): (r: Option<ScopeId>)
      requires Valid() && id < |scopes|
      ensures r.Some? ==> r.value < id
    {
      if scopes[id].kind.IsGlobal() then None else scopes[id].parent
    }

    // ---- Position to scope ----

    predicate Better(offset: nat, i: nat, best: nat)
      requires i < |scopes| && best < |scopes|
    {
      scopes[i].range.ContainsInclusive(offset)
      && scopes[i].range.end - scopes[i].range.start <= scopes[best].range.end - scopes[best].range.start
    }

    /** The best of the first `n` scopes. */
    function BestScope(offset: nat, n: nat): (best: ScopeId)
      requires Valid() && n <= |scopes|
      ensures best < |scopes|
    {
      if n == 0 then 0
      else
        var best := BestScope(offset, n - 1);
        if Better(offset, n - 1, best) then n - 1 else best
    }

    function ScopeAt(offset: nat): (best: ScopeId)
      requires Valid()
      ensures best < |scopes|
    {
      BestScope(offset, |scopes|)
    }

    method FindScopeAt(offset: nat) returns (best: ScopeId)
      requires Valid()
      ensures best == ScopeAt(offset)
    {
      best := 0;
      var bestLen := scopes[0].range.end - scopes[0].range.start;
      for i := 0 to |scopes|
        invariant best == BestScope(offset, i) < |scopes|
        invariant bestLen == scopes[best].range.end - scopes[best].range.start
      {
        if scopes[i].range.ContainsInclusive(offset) && scopes[i].range.end - scopes[i].range.start <= bestLen {
          best := i;
          bestLen := scopes[i].range.end - scopes[i].range.start;
        }
      }
    }

    // ---- The nested modules around a scope ----

    function OwnModule(id: ScopeId): seq<string>
      requires id < |scopes|
    {
      if scopes[id].kind.Module? && scopes[id].moduleName.Some? then [scopes[id].moduleName.value] else []
    }

    /** Outermost first. */
    function EnclosingModulePath(id: ScopeId): seq<string>
      requires Valid() && id < |scopes|
    {
      (if scopes[id].parent.Some? then EnclosingModulePath(scopes[id].parent.value) else []) + OwnModule(id)
    }

    lemma PathStep(id: ScopeId, rest: seq<string>)
      requires Valid() && id < |scopes|
      ensures EnclosingModulePath(id) + rest ==
        (if scopes[id].parent.Some? then EnclosingModulePath(scopes[id].parent.value) else []) + (OwnModule(id) + rest)
    {
      var outer := if scopes[id].parent.Some? then EnclosingModulePath(scopes[id].parent.value) else [];
      assert EnclosingModulePath(id) == outer + OwnModule(id);
      hide EnclosingModulePath, OwnModule;
      Associates(outer, OwnModule(id), rest);
    }

    method FindEnclosingModulePath(scope: ScopeId) returns (path: seq<string>)
      requires Valid() && scope < |scopes|
      ensures path == EnclosingModulePath(scope)
    {
      hide Reversed;
      path := [];
      ReversedEmpty<string>();
      var cursor: Option<ScopeId> := Some(scope);
      while cursor.Some?
        invariant cursor.Some? ==> cursor.value < |scopes|
        invariant EnclosingModulePath(scope) == (if cursor.Some? then EnclosingModulePath(cursor.value) else []) + Reversed(path)
        decreases if cursor.Some? then cursor.value + 1 else 0
      {
        var here := scopes[cursor.value];
        PathStep(cursor.value, Reversed(path));
        if here.kind.Module? && here.moduleName.Some? {
          ReversedSnoc(path, here.moduleName.value);
          path := path + [here.moduleName.value];
        }
        cursor := here.parent;
      }
      path := Reversed(path);
    }

    // ---- Looking sites up ----

    function FirstBinding(offset: nat, from: nat): (r: Option<BindingId>)
      requires from <= |bindings|
      ensures r.Some? ==> from <= r.value < |bindings|
      ensures r.Some? ==> !bindings[r.value].defRange.IsEmpty() && bindings[r.value].defRange.ContainsInclusive(offset)
      ensures forall b :: from <= b < (if r.Some? then r.value else |bindings|) ==>
        bindings[b].defRange.IsEmpty() || !bindings[b].defRange.ContainsInclusive(offset)
      decreases |bindings| - from
    {
      if from == |bindings| then None
      else if !bindings[from].defRange.IsEmpty() && bindings[from].defRange.ContainsInclusive(offset) then Some(from)
      else FirstBinding(offset, from + 1)
    }

    function BindingAt(offset: nat): (r: Option<BindingId>)
      ensures r.Some? ==> r.value < |bindings|
    {
      FirstBinding(offset, 0)
    }

    function FirstIdent(offset: nat, from: nat): (r: Option<nat>)
      requires from <= |idents|
      ensures r.Some? ==> from <= r.value < |idents| && idents[r.value].range.ContainsInclusive(offset)
      ensures forall i :: from <= i < (if r.Some? then r.value else |idents|) ==> !idents[i].range.ContainsInclusive(offset)
      decreases |idents| - from
    {
      if from == |idents| then None
      else if idents[from].range.ContainsInclusive(offset) then Some(from)
      else FirstIdent(offset, from + 1)
    }

    function IdentAt(offset: nat): (r: Option<nat>)
      ensures r.Some? ==> r.value < |idents|
    {
      FirstIdent(offset, 0)
    }

    // ---- Occurrences of a binding ----

    function Uses(b: BindingId, n: nat): seq<Occurrence>
      requires n <= |idents|
    {
      if n == 0 then []
      else
        Uses(b, n - 1)
        + if idents[n - 1].binding == Some(b) then [Occurrence(idents[n - 1].range, idents[n - 1].access, false)] else []
    }

    function Occurrences(b: BindingId): seq<Occurrence>
      requires b < |bindings|
    {
      (if bindings[b].defRange.IsEmpty() then [] else [Occurrence(bindings[b].defRange, Write, true)]) + Uses(b, |idents|)
    }
  }

  lemma {:induction false} BestScopeIs(m: SemanticModel, offset: nat, n: nat)
    requires m.Valid() && n <= |m.scopes| && m.scopes[0].range.ContainsInclusive(offset)
    ensures var best := m.BestScope(offset, n);
      && m.scopes[best].range.ContainsInclusive(offset)
      && (forall i :: 0 <= i < n && m.scopes[i].range.ContainsInclusive(offset) ==> m.Better(offset, best, i))
      && (forall i :: best < i < n ==> !m.Better(offset, i, best))
  {
    if n > 0 {
      BestScopeIs(m, offset, n - 1);
    }
  }

  function Length(s: Scope): int {
    s.range.end - s.range.start
  }

  predicate Around(s: Scope, offset: nat) {
    s.range.start <= offset <= s.range.end
  }

  /** The innermost scope around a position: no scope that contains it is shorter,
      and of several as short, the last one introduced. */
  lemma ScopeAtIsInnermost(m: SemanticModel, offset: nat)
    requires m.Valid() && Around(m.scopes[0], offset)
    ensures var best := m.ScopeAt(offset);
      && Around(m.scopes[best], offset)
      && (forall i :: 0 <= i < |m.scopes| && Around(m.scopes[i], offset) ==> Length(m.scopes[best]) <= Length(m.scopes[i]))
      && (forall i :: best < i < |m.scopes| && Around(m.scopes[i], offset) ==> Length(m.scopes[best]) < Length(m.scopes[i]))
  {
    BestScopeIs(m, offset, |m.scopes|);
    var best := m.ScopeAt(offset);
    forall i | 0 <= i < |m.scopes| && Around(m.scopes[i], offset)
      ensures Length(m.scopes[best]) <= Length(m.scopes[i]) && (i > best ==> Length(m.scopes[best]) < Length(m.scopes[i]))
    {
      assert m.Better(offset, best, i) && (i > best ==> !m.Better(offset, i, best));
    }
  }

  function UseOf(i: IdentRef): Occurrence {
    Occurrence(i.range, i.access, false)
  }

  /** `ids` are the identifiers among the first `n` that resolve to `b`, in order. */
  ghost predicate ResolvedTo(m: SemanticModel, b: BindingId, n: nat, ids: seq<nat>)
    requires n <= |m.idents|
  {
    && (forall k, l :: 0 <= k < l < |ids| ==> ids[k] < ids[l])
    && forall i: nat :: i in ids <==> i < n && m.idents[i].binding == Some(b)
  }

  lemma {:induction false} UsesAre(m: SemanticModel, b: BindingId, n: nat) returns (ids: seq<nat>)
    requires n <= |m.idents|
    ensures ResolvedTo(m, b, n, ids) && |m.Uses(b, n)| == |ids|
    ensures forall k :: 0 <= k < |ids| ==> ids[k] < n && m.Uses(b, n)[k] == UseOf(m.idents[ids[k]])
  {
    if n == 0 {
      ids := [];
    } else {
      var before := UsesAre(m, b, n - 1);
      ids := before + if m.idents[n - 1].binding == Some(b) then [n - 1] else [];
      forall i: nat
        ensures i in ids <==> i < n && m.idents[i].binding == Some(b)
      {
        assert i in before <==> i < n - 1 && m.idents[i].binding == Some(b);
      }
    }
  }

  /** The occurrences of a binding: its definition, if it has one in the text, and
      then every identifier that resolves to it, once and in source order. */
  lemma OccurrencesAre(m: SemanticModel, b: BindingId) returns (ids: seq<nat>)
    requires b < |m.bindings|
    ensures ResolvedTo(m, b, |m.idents|, ids)
    ensures var defs := if m.bindings[b].defRange.IsEmpty() then 0 else 1;
      && |m.Occurrences(b)| == defs + |ids|
      && (defs == 1 ==> m.Occurrences(b)[0] == Occurrence(m.bindings[b].defRange, Write, true))
      && forall k :: 0 <= k < |ids| ==> ids[k] < |m.idents| && m.Occurrences(b)[defs + k] == UseOf(m.idents[ids[k]])
  {
    ids := UsesAre(m, b, |m.idents|);
    hide ResolvedTo;
  }
}
