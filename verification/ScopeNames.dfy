/** Names looked up and listed within one file (src/semantic.rs): the scope chain
    of a read, the binding a name resolves to on it, and the bindings in scope.
    These go by the stored name, while the resolver goes by namespace; the last
    part says when the two find the same binding. */
module ScopeNames {
  import opened Sequences
  import opened Wrappers
  import opened SemanticModel
  import opened Resolver

  predicate Answers(b: Binding, name: string, isMacro: bool) {
    if isMacro then (b.kind.Macro? && b.name == name) || (b.kind.Import? && b.name == "@" + name)
    else b.name == name
  }

  predicate InRange(m: SemanticModel, ids: seq<BindingId>) {
    forall k :: 0 <= k < |ids| ==> ids[k] < |m.bindings|
  }

  /** The bindings a read in a scope sees, nearest first. */
  function Seen(m: SemanticModel, scope: ScopeId): (r: seq<BindingId>)
    requires m.Valid() && scope < |m.scopes|
    ensures InRange(m, r)
    decreases scope
  {
    var next := m.Outward(scope);
    Reversed(m.scopes[scope].bindings) + if next.Some? then Seen(m, next.value) else []
  }

  function FirstNamed(m: SemanticModel, ids: seq<BindingId>, name: string, isMacro: bool): (r: Option<BindingId>)
    requires InRange(m, ids)
    ensures r.Some? ==> r.value in ids && r.value < |m.bindings| && Answers(m.bindings[r.value], name, isMacro)
  {
    if ids == [] then None
    else if Answers(m.bindings[ids[0]], name, isMacro) then Some(ids[0])
    else FirstNamed(m, ids[1..], name, isMacro)
  }

  function NameResolved(m: SemanticModel, name: string, scope: ScopeId, isMacro: bool): Option<BindingId>
    requires m.Valid() && scope < |m.scopes|
  {
    FirstNamed(m, Seen(m, scope), name, isMacro)
  }

  lemma {:induction false} FirstNamedConcat(m: SemanticModel, a: seq<BindingId>, b: seq<BindingId>, name: string, isMacro: bool)
    requires InRange(m, a) && InRange(m, b)
    ensures InRange(m, a + b)
    ensures var hit := FirstNamed(m, a, name, isMacro);
      FirstNamed(m, a + b, name, isMacro) == if hit.Some? then hit else FirstNamed(m, b, name, isMacro)
  {
    if a == [] {
      assert a + b == b;
    } else {
      assert (a + b)[0] == a[0] && (a + b)[1..] == a[1..] + b;
      FirstNamedConcat(m, a[1..], b, name, isMacro);
    }
  }

  /** The last binding of one scope that answers. */
  method LastAnswering(m: SemanticModel, bindings: seq<BindingId>, name: string, isMacro: bool) returns (r: Option<BindingId>)
    requires InRange(m, bindings)
    ensures InRange(m, Reversed(bindings)) && r == FirstNamed(m, Reversed(bindings), name, isMacro)
  {
    hide Answers;
    assert bindings[..|bindings|] == bindings;
    for k := |bindings| downto 0
      invariant FirstNamed(m, Reversed(bindings), name, isMacro) == FirstNamed(m, Reversed(bindings[..k]), name, isMacro)
    {
      assert bindings[..k + 1][..k] == bindings[..k];
      assert Reversed(bindings[..k + 1]) == [bindings[k]] + Reversed(bindings[..k]);
      assert Reversed(bindings[..k + 1])[1..] == Reversed(bindings[..k]);
      if Answers(m.bindings[bindings[k]], name, isMacro) {
        return Some(bindings[k]);
      }
    }
    r := None;
  }

  lemma ResolvesOutward(m: SemanticModel, name: string, scope: ScopeId, isMacro: bool)
    requires m.Valid() && scope < |m.scopes| && InRange(m, Reversed(m.scopes[scope].bindings))
    ensures var hit := FirstNamed(m, Reversed(m.scopes[scope].bindings), name, isMacro);
      var next := m.Outward(scope);
      NameResolved(m, name, scope, isMacro) ==
        if hit.Some? then hit else if next.Some? then NameResolved(m, name, next.value, isMacro) else None
  {
    var next := m.Outward(scope);
    hide FirstNamed, Reversed;
    FirstNamedConcat(m, Reversed(m.scopes[scope].bindings), if next.Some? then Seen(m, next.value) else [], name, isMacro);
    NothingNamed(m, name, isMacro);
  }

  lemma NothingNamed(m: SemanticModel, name: string, isMacro: bool)
    ensures FirstNamed(m, [], name, isMacro) == None
  {
  }

  /** Scope by scope outwards, in each scope from the last binding back. */
  method ResolveName(m: SemanticModel, name: string, scope: ScopeId, isMacro: bool) returns (r: Option<BindingId>)
    requires m.Valid() && scope < |m.scopes|
    ensures r == NameResolved(m, name, scope, isMacro)
  {
    hide NameResolved, FirstNamed, Reversed;
    var cursor: Option<ScopeId> := Some(scope);
    while cursor.Some?
      invariant cursor.Some? ==> cursor.value < |m.scopes|
      invariant NameResolved(m, name, scope, isMacro) == if cursor.Some? then NameResolved(m, name, cursor.value, isMacro) else None
      decreases if cursor.Some? then cursor.value + 1 else 0
    {
      var hit := LastAnswering(m, m.scopes[cursor.value].bindings, name, isMacro);
      ResolvesOutward(m, name, cursor.value, isMacro);
      if hit.Some? {
        return hit;
      }
      cursor := m.Outward(cursor.value);
    }
    r := None;
  }

  // ---- Everything in scope ----

  function NameOf(m: SemanticModel, id: BindingId): string {
    if id < |m.bindings| then m.bindings[id].name else ""
  }

  predicate Holds(m: SemanticModel, ids: seq<BindingId>, name: string) {
    exists k :: 0 <= k < |ids| && NameOf(m, ids[k]) == name
  }

  /** The first binding under each name. */
  function Shadowed(m: SemanticModel, ids: seq<BindingId>): seq<BindingId> {
    if ids == [] then []
    else
      var before, last := ids[..|ids| - 1], ids[|ids| - 1];
      Shadowed(m, before) + if Holds(m, before, NameOf(m, last)) then [] else [last]
  }

  lemma HoldsSnoc(m: SemanticModel, ids: seq<BindingId>, id: BindingId, name: string)
    ensures Holds(m, ids + [id], name) <==> Holds(m, ids, name) || NameOf(m, id) == name
  {
    var more := ids + [id];
    assert more[|ids|] == id;
    if k :| 0 <= k < |ids| && NameOf(m, ids[k]) == name {
      assert more[k] == ids[k];
    }
  }

  method NamesInScopeAt(m: SemanticModel, offset: nat) returns (out: seq<BindingId>)
    requires m.Valid()
    ensures out == Shadowed(m, Seen(m, m.ScopeAt(offset)))
  {
    var at := m.FindScopeAt(offset);
    var seen: seq<string>;
    ghost var done: seq<BindingId> := [];
    seen, out := [], [];
    var cursor: Option<ScopeId> := Some(at);
    hide Holds, Shadowed, NameOf;
    StartsEmpty(m);
    while cursor.Some?
      invariant cursor.Some? ==> cursor.value < |m.scopes|
      invariant done + (if cursor.Some? then Seen(m, cursor.value) else []) == Seen(m, at)
      invariant out == Shadowed(m, done) && forall name: string :: name in seen <==> Holds(m, done, name)
      decreases if cursor.Some? then cursor.value + 1 else 0
    {
      var next := m.Outward(cursor.value);
      seen, out := ListScope(m, cursor.value, seen, out, done);
      ghost var here := Reversed(m.scopes[cursor.value].bindings);
      Associates(done, here, if next.Some? then Seen(m, next.value) else []);
      done := done + here;
      cursor := next;
    }
    assert done + [] == done;
  }

  lemma StartsEmpty(m: SemanticModel)
    ensures Shadowed(m, []) == [] && forall name: string :: !Holds(m, [], name)
    ensures forall s: seq<BindingId> :: [] + s == s
  {
  }

  lemma ShadowedSnoc(m: SemanticModel, ids: seq<BindingId>, id: BindingId)
    ensures Shadowed(m, ids + [id]) == if Holds(m, ids, NameOf(m, id)) then Shadowed(m, ids) else Shadowed(m, ids) + [id]
    ensures forall name: string :: Holds(m, ids + [id], name) <==> Holds(m, ids, name) || NameOf(m, id) == name
  {
    assert (ids + [id])[..|ids|] == ids;
    forall name: string
      ensures Holds(m, ids + [id], name) <==> Holds(m, ids, name) || NameOf(m, id) == name
    {
      HoldsSnoc(m, ids, id, name);
    }
  }

  method ListScope(m: SemanticModel, scope: ScopeId, seen: seq<string>, out: seq<BindingId>, ghost done: seq<BindingId>)
    returns (seen': seq<string>, out': seq<BindingId>)
    requires m.Valid() && scope < |m.scopes|
    requires out == Shadowed(m, done) && forall name: string :: name in seen <==> Holds(m, done, name)
    ensures var ids := done + Reversed(m.scopes[scope].bindings);
      out' == Shadowed(m, ids) && forall name: string :: name in seen' <==> Holds(m, ids, name)
  {
    hide Holds, Shadowed, NameOf;
    var bindings := m.scopes[scope].bindings;
    seen', out' := seen, out;
    ghost var listed := done;
    assert bindings[..|bindings|] == bindings;
    for k := |bindings| downto 0
      invariant listed + Reversed(bindings[..k]) == done + Reversed(bindings)
      invariant out' == Shadowed(m, listed) && forall name: string :: name in seen' <==> Holds(m, listed, name)
    {
      var id := bindings[k];
      var name := m.bindings[id].name;
      assert name == NameOf(m, id) by {
        NameIs(m, id);
      }
      assert bindings[..k + 1][..k] == bindings[..k];
      assert Reversed(bindings[..k + 1]) == [id] + Reversed(bindings[..k]);
      Associates(listed, [id], Reversed(bindings[..k]));
      ShadowedSnoc(m, listed, id);
      if name !in seen' {
        seen' := seen' + [name];
        out' := out' + [id];
      }
      listed := listed + [id];
    }
    assert listed + [] == listed;
  }

  lemma NameIs(m: SemanticModel, id: BindingId)
    requires id < |m.bindings|
    ensures NameOf(m, id) == m.bindings[id].name
  {
  }

  lemma {:induction false} FirstNamedHolds(m: SemanticModel, ids: seq<BindingId>, name: string)
    requires InRange(m, ids)
    ensures FirstNamed(m, ids, name, false).Some? <==> Holds(m, ids, name)
    decreases |ids|
  {
    if ids != [] {
      var before, last := ids[..|ids| - 1], ids[|ids| - 1];
      assert ids == before + [last];
      FirstNamedHolds(m, before, name);
      FirstNamedConcat(m, before, [last], name, false);
      HoldsSnoc(m, before, last, name);
      hide Holds;
    }
  }

  lemma {:induction false} ShadowedIsFirst(m: SemanticModel, ids: seq<BindingId>, b: BindingId)
    requires InRange(m, ids) && b < |m.bindings|
    ensures b in Shadowed(m, ids) <==> FirstNamed(m, ids, m.bindings[b].name, false) == Some(b)
    decreases |ids|
  {
    if ids != [] {
      var before, last := ids[..|ids| - 1], ids[|ids| - 1];
      assert ids == before + [last];
      ShadowedIsFirst(m, before, b);
      FirstNamedConcat(m, before, [last], m.bindings[b].name, false);
      FirstNamedHolds(m, before, m.bindings[last].name);
      FirstNamedHolds(m, before, m.bindings[b].name);
      hide Holds;
    }
  }

  /** Listed in scope is exactly what its own name resolves to there. */
  lemma InScopeResolves(m: SemanticModel, offset: nat, b: BindingId)
    requires m.Valid() && b < |m.bindings|
    ensures b in Shadowed(m, Seen(m, m.ScopeAt(offset))) <==>
      NameResolved(m, m.bindings[b].name, m.ScopeAt(offset), false) == Some(b)
  {
    ShadowedIsFirst(m, Seen(m, m.ScopeAt(offset)), b);
  }

  // ---- Against the resolver's namespaces ----

  lemma {:induction false} LastIsFirst(r: Resolver, bindings: seq<BindingId>, wanted: string, ns: Namespace)
    requires InRange(r.model, bindings)
    ensures InRange(r.model, Reversed(bindings))
    ensures r.LastNamed(bindings, wanted, ns) == FirstIn(r, Reversed(bindings), wanted, ns)
    decreases |bindings|
  {
    if bindings != [] {
      LastIsFirst(r, bindings[..|bindings| - 1], wanted, ns);
      hide NamespacedName;
      var b := bindings[|bindings| - 1];
      assert Reversed(bindings)[1..] == Reversed(bindings[..|bindings| - 1]);
    }
  }

  function FirstIn(r: Resolver, ids: seq<BindingId>, wanted: string, ns: Namespace): (hit: Option<BindingId>)
    requires InRange(r.model, ids)
  {
    if ids == [] then None
    else if NamespacedName(r.model.bindings[ids[0]], ns) == Some(wanted) then Some(ids[0])
    else FirstIn(r, ids[1..], wanted, ns)
  }

  lemma {:induction false} FirstInConcat(r: Resolver, a: seq<BindingId>, b: seq<BindingId>, wanted: string, ns: Namespace)
    requires InRange(r.model, a) && InRange(r.model, b)
    ensures InRange(r.model, a + b)
    ensures var hit := FirstIn(r, a, wanted, ns);
      FirstIn(r, a + b, wanted, ns) == if hit.Some? then hit else FirstIn(r, b, wanted, ns)
  {
    if a == [] {
      assert a + b == b;
    } else {
      assert (a + b)[0] == a[0] && (a + b)[1..] == a[1..] + b;
      FirstInConcat(r, a[1..], b, wanted, ns);
      hide NamespacedName;
    }
  }

  lemma {:induction false} BindingFromIs(r: Resolver, scope: ScopeId, wanted: string, ns: Namespace)
    requires r.Valid() && scope < |r.model.scopes|
    ensures r.BindingFrom(scope, wanted, ns) == FirstIn(r, Seen(r.model, scope), wanted, ns)
    decreases scope
  {
    var next := r.model.Outward(scope);
    var bindings := r.model.scopes[scope].bindings;
    LastIsFirst(r, bindings, wanted, ns);
    if next.Some? {
      BindingFromIs(r, next.value, wanted, ns);
    }
    FirstInConcat(r, Reversed(bindings), if next.Some? then Seen(r.model, next.value) else [], wanted, ns);
    hide Reversed, FirstIn;
  }

  lemma {:induction false} MacrosAgreeOn(r: Resolver, ids: seq<BindingId>, name: string)
    requires InRange(r.model, ids)
    ensures FirstNamed(r.model, ids, name, true) == FirstIn(r, ids, "@" + name, Namespace.Macro)
  {
    if ids != [] {
      MacrosAgreeOn(r, ids[1..], name);
      var b := r.model.bindings[ids[0]];
      assert b.kind.Macro? ==> (b.name == name <==> "@" + b.name == "@" + name) by {
        assert ("@" + b.name)[1..] == b.name && ("@" + name)[1..] == name;
      }
    }
  }

  /** The first value under a name is the first binding under it, if that one is a
      value. */
  lemma {:induction false} ValuesAgreeOn(r: Resolver, ids: seq<BindingId>, name: string)
    requires InRange(r.model, ids)
    ensures var hit := FirstNamed(r.model, ids, name, false);
      FirstIn(r, ids, name, Value) == hit <==> hit.None? || NamespacedName(r.model.bindings[hit.value], Value) == Some(name)
    ensures FirstIn(r, ids, name, Value).Some? ==>
      FirstIn(r, ids, name, Value).value < |r.model.bindings|
      && NamespacedName(r.model.bindings[FirstIn(r, ids, name, Value).value], Value) == Some(name)
  {
    if ids != [] {
      ValuesAgreeOn(r, ids[1..], name);
    }
  }

  /** On macros, lookup by stored name and lookup by namespace always agree; on
      values, exactly unless the nearest binding stored under the name is a macro. */
  lemma LookupsAgree(r: Resolver, name: string, scope: ScopeId)
    requires r.Valid() && scope < |r.model.scopes|
    ensures NameResolved(r.model, name, scope, true) == r.BindingFrom(scope, "@" + name, Namespace.Macro)
    ensures var hit := NameResolved(r.model, name, scope, false);
      hit == r.BindingFrom(scope, name, Value) <==>
        hit.None? || NamespacedName(r.model.bindings[hit.value], Value) == Some(name)
  {
    MacrosAgreeOn(r, Seen(r.model, scope), name);
    ValuesAgreeOn(r, Seen(r.model, scope), name);
    BindingFromIs(r, scope, "@" + name, Namespace.Macro);
    BindingFromIs(r, scope, name, Value);
    hide FirstIn, FirstNamed, NamespacedName, Seen;
  }
}
