/** Text edits, by character positions, and the incremental reparse built on them
    (crates/fatou-parser/src/parser/edit.rs and reparse.rs). The parser itself is
    a parameter; what is assumed of it is only that splicing one edit that fits
    into the true parse of a text gives the true parse of the edited text. */
module Edits {
  import opened Wrappers

  datatype Edit = Edit(start: nat, end: nat, insert: string)

  predicate Fits(text: string, e: Edit) {
    e.start <= e.end <= |text|
  }

  function Apply(text: string, e: Edit): string
    requires Fits(text, e)
  {
    text[..e.start] + e.insert + text[e.end..]
  }

  /** Apply a chain of edits, each expressed against the text its predecessors
      produced; None when one of them does not fit. */
  function TryApply(text: string, edits: seq<Edit>): Option<string>
    decreases edits
  {
    if edits == [] then Some(text)
    else if !Fits(text, edits[0]) then None
    else TryApply(Apply(text, edits[0]), edits[1..])
  }

  lemma {:induction false} TryApplyConcat(text: string, a: seq<Edit>, b: seq<Edit>)
    ensures TryApply(text, a + b) ==
      match TryApply(text, a)
      case None => None
      case Some(t) => TryApply(t, b)
    decreases a
  {
    if a == [] {
      assert a + b == b;
    } else {
      assert (a + b)[0] == a[0] && (a + b)[1..] == a[1..] + b;
      if Fits(text, a[0]) {
        TryApplyConcat(Apply(text, a[0]), a[1..], b);
      }
    }
  }

  // ---- One edit between two texts ----

  predicate SameStart<T(==)>(a: seq<T>, b: seq<T>, n: nat) {
    n <= |a| && n <= |b| && forall k :: 0 <= k < n ==> a[k] == b[k]
  }

  function FromEnd<T>(s: seq<T>, k: nat): T
    requires k < |s|
  {
    s[|s| - 1 - k]
  }

  predicate SameEnd<T(==)>(a: seq<T>, b: seq<T>, n: nat) {
    n <= |a| && n <= |b| && forall k: nat :: k < n ==> FromEnd(a, k) == FromEnd(b, k)
  }

  function CommonPrefix<T(==)>(a: seq<T>, b: seq<T>): (n: nat)
    ensures SameStart(a, b, n) && (n < |a| && n < |b| ==> a[n] != b[n])
  {
    if a == [] || b == [] || a[0] != b[0] then 0 else 1 + CommonPrefix(a[1..], b[1..])
  }

  function CommonSuffix<T(==)>(a: seq<T>, b: seq<T>): (n: nat)
    ensures SameEnd(a, b, n) && (n < |a| && n < |b| ==> FromEnd(a, n) != FromEnd(b, n))
  {
    if a == [] || b == [] || a[|a| - 1] != b[|b| - 1] then 0
    else
      var m := CommonSuffix(a[..|a| - 1], b[..|b| - 1]);
      assert forall k: nat :: 0 < k < |a| ==> FromEnd(a, k) == FromEnd(a[..|a| - 1], k - 1);
      assert forall k: nat :: 0 < k < |b| ==> FromEnd(b, k) == FromEnd(b[..|b| - 1], k - 1);
      1 + m
  }

  /** The single edit left after stripping the common prefix and, from what
      remains, the common suffix. */
  function DiffEdit(before: string, after: string): Edit {
    var prefix := CommonPrefix(before, after);
    var suffix := CommonSuffix(before[prefix..], after[prefix..]);
    Edit(prefix, |before| - suffix, after[prefix..|after| - suffix])
  }

  lemma CommonPrefixIs<T>(a: seq<T>, b: seq<T>, n: nat)
    requires SameStart(a, b, n) && (n < |a| && n < |b| ==> a[n] != b[n])
    ensures CommonPrefix(a, b) == n
  {
  }

  lemma CommonSuffixIs<T>(a: seq<T>, b: seq<T>, n: nat)
    requires SameEnd(a, b, n) && (n < |a| && n < |b| ==> FromEnd(a, n) != FromEnd(b, n))
    ensures CommonSuffix(a, b) == n
  {
    hide FromEnd;
  }

  method PrefixLength<T(==)>(a: seq<T>, b: seq<T>) returns (prefix: nat)
    ensures prefix == CommonPrefix(a, b)
  {
    prefix := 0;
    while prefix < |a| && prefix < |b| && a[prefix] == b[prefix]
      invariant SameStart(a, b, prefix)
    {
      prefix := prefix + 1;
    }
    CommonPrefixIs(a, b, prefix);
  }

  method SuffixLength<T(==)>(a: seq<T>, b: seq<T>) returns (suffix: nat)
    ensures suffix == CommonSuffix(a, b)
  {
    suffix := 0;
    while suffix < |a| && suffix < |b| && FromEnd(a, suffix) == FromEnd(b, suffix)
      invariant SameEnd(a, b, suffix)
    {
      suffix := suffix + 1;
    }
    CommonSuffixIs(a, b, suffix);
  }

  method ComputeDiffEdit(before: string, after: string) returns (e: Edit)
    ensures e == DiffEdit(before, after)
  {
    var prefix := PrefixLength(before, after);
    var suffix := SuffixLength(before[prefix..], after[prefix..]);
    e := Edit(prefix, |before| - suffix, after[prefix..|after| - suffix]);
  }

  lemma {:induction false} EqualTails<T>(a: seq<T>, b: seq<T>, n: nat)
    requires SameEnd(a, b, n)
    ensures a[|a| - n..] == b[|b| - n..]
    decreases n
  {
    if n > 0 {
      EqualTails(a, b, n - 1);
      assert FromEnd(a, n - 1) == FromEnd(b, n - 1);
      assert a[|a| - n..] == [FromEnd(a, n - 1)] + a[|a| - (n - 1)..];
      assert b[|b| - n..] == [FromEnd(b, n - 1)] + b[|b| - (n - 1)..];
    }
  }

  lemma ThreeParts<T>(t: seq<T>, n: nat, m: nat)
    requires n + m <= |t|
    ensures t == t[..n] + t[n..|t| - m] + t[|t| - m..]
  {
  }

  lemma EqualEnds(before: string, after: string, n: nat)
    requires n <= |before| && n <= |after|
    ensures var suffix := CommonSuffix(before[n..], after[n..]);
      n + suffix <= |before| && n + suffix <= |after| && before[|before| - suffix..] == after[|after| - suffix..]
  {
    hide CommonSuffix, FromEnd;
    EqualEndsOf(before, after, n, CommonSuffix(before[n..], after[n..]));
  }

  lemma EqualEndsOf(before: string, after: string, n: nat, suffix: nat)
    requires n <= |before| && n <= |after| && SameEnd(before[n..], after[n..], suffix)
    ensures n + suffix <= |before| && n + suffix <= |after| && before[|before| - suffix..] == after[|after| - suffix..]
  {
    EqualTails(before[n..], after[n..], suffix);
    hide FromEnd;
    TailOfTail(before, n, suffix);
    TailOfTail(after, n, suffix);
  }

  /** The two ends that the recovered edit leaves alone. */
  lemma DiffParts(before: string, after: string) returns (prefix: nat, suffix: nat)
    ensures prefix + suffix <= |before| && prefix + suffix <= |after|
    ensures before[..prefix] == after[..prefix] && before[|before| - suffix..] == after[|after| - suffix..]
    ensures DiffEdit(before, after) == Edit(prefix, |before| - suffix, after[prefix..|after| - suffix])
  {
    hide CommonPrefix, CommonSuffix, SameEnd, FromEnd;
    prefix := CommonPrefix(before, after);
    EqualStarts(before, after, prefix);
    hide SameStart;
    suffix := CommonSuffix(before[prefix..], after[prefix..]);
    EqualEnds(before, after, prefix);
  }

  /** The recovered edit fits the old text and turns it into the new one. */
  lemma DiffEditApplies(before: string, after: string)
    ensures Fits(before, DiffEdit(before, after)) && Apply(before, DiffEdit(before, after)) == after
  {
    hide DiffEdit;
    var prefix, suffix := DiffParts(before, after);
    ThreeParts(after, prefix, suffix);
  }

  lemma EqualStarts<T>(a: seq<T>, b: seq<T>, n: nat)
    requires SameStart(a, b, n)
    ensures a[..n] == b[..n]
  {
  }

  lemma TailOfTail<T>(t: seq<T>, n: nat, m: nat)
    requires n + m <= |t|
    ensures t[n..][|t| - n - m..] == t[|t| - m..]
  {
  }

  /** No single edit between the two texts replaces fewer characters. */
  lemma DiffEditIsSmallest(before: string, after: string, e: Edit)
    requires Fits(before, e) && Apply(before, e) == after
    ensures DiffEdit(before, after).end - DiffEdit(before, after).start <= e.end - e.start
  {
    var prefix := CommonPrefix(before, after);
    var tail := |before| - e.end;
    SameOutside(before, e);
    assert prefix >= e.start by {
      hide CommonSuffix, FromEnd;
    }
    hide CommonPrefix, SameStart, Apply;
    CommonTail(before, after, prefix, tail);
  }

  /** An edit leaves what is before and after its range as it is. */
  lemma SameOutside(before: string, e: Edit)
    requires Fits(before, e)
    ensures var after := Apply(before, e);
      && |after| == e.start + |e.insert| + |before| - e.end
      && SameStart(before, after, e.start) && SameEnd(before, after, |before| - e.end)
  {
    var after := Apply(before, e);
    forall k: nat | k < |before| - e.end
      ensures FromEnd(before, k) == FromEnd(after, k)
    {
      assert before[|before| - 1 - k] == after[|after| - 1 - k];
    }
  }

  /** The common suffix of what follows a prefix is as long as any common end. */
  lemma CommonTail(before: string, after: string, prefix: nat, tail: nat)
    requires prefix <= |before| && prefix <= |after| && SameEnd(before, after, tail)
    ensures var suffix := CommonSuffix(before[prefix..], after[prefix..]);
      suffix >= tail || suffix == |before| - prefix || suffix == |after| - prefix
  {
    var a, b := before[prefix..], after[prefix..];
    forall k: nat | k < tail && k < |a| && k < |b|
      ensures FromEnd(a, k) == FromEnd(b, k)
    {
      assert FromEnd(a, k) == FromEnd(before, k) && FromEnd(b, k) == FromEnd(after, k);
    }
  }

  // ---- Parsing ----

  datatype Green = Token(kind: nat, text: string) | Node(kind: nat, children: seq<Green>)

  /** A green tree and its diagnostics. */
  datatype Parsed = Parsed(green: Green, diagnostics: seq<string>)

  /** A full parse, and an attempt to splice one edit into an earlier parse. */
  datatype Parser = Parser(parse: string -> Parsed, splice: (string, Parsed, Edit, string) -> Option<Parsed>)

  /** Splicing a fitting edit into a true parse gives a true parse or nothing. */
  ghost predicate Faithful(p: Parser) {
    forall text, e ::
      Fits(text, e) ==>
        var r := p.splice(text, p.parse(text), e, Apply(text, e));
        r.None? || r.value == p.parse(Apply(text, e))
  }

  function Reparse(p: Parser, text: string, parsed: Parsed, e: Edit, after: string): Option<Parsed> {
    if Fits(text, e) then p.splice(text, parsed, e, after) else None
  }

  /** Splice a chain of edits one at a time. */
  function SpliceChain(p: Parser, text: string, parsed: Parsed, edits: seq<Edit>): Option<(string, Parsed)>
    decreases edits
  {
    if edits == [] then Some((text, parsed))
    else if !Fits(text, edits[0]) then None
    else
      var next := Apply(text, edits[0]);
      match p.splice(text, parsed, edits[0], next)
      case None => None
      case Some(step) => SpliceChain(p, next, step, edits[1..])
  }

  /** The chain is not trusted: a single edit must turn the one text into the
      other, and a longer chain must end in the new text. */
  function ReparseEdits(p: Parser, text: string, parsed: Parsed, edits: seq<Edit>, after: string): Option<Parsed> {
    if edits == [] then None
    else if |edits| == 1 then
      if Fits(text, edits[0]) && Apply(text, edits[0]) == after then Reparse(p, text, parsed, edits[0], after)
      else None
    else
      match SpliceChain(p, text, parsed, edits)
      case None => None
      case Some(end) => if end.0 == after then Some(end.1) else None
  }

  method ComputeReparseEdits(p: Parser, text: string, parsed: Parsed, edits: seq<Edit>, after: string)
    returns (r: Option<Parsed>)
    ensures r == ReparseEdits(p, text, parsed, edits, after)
  {
    if edits == [] {
      return None;
    }
    if |edits| == 1 {
      if !Fits(text, edits[0]) || Apply(text, edits[0]) != after {
        return None;
      }
      return Reparse(p, text, parsed, edits[0], after);
    }
    var current, tree := text, parsed;
    for i := 0 to |edits|
      invariant SpliceChain(p, current, tree, edits[i..]) == SpliceChain(p, text, parsed, edits)
    {
      var edit := edits[i];
      assert edits[i..][0] == edit && edits[i..][1..] == edits[i + 1..];
      if !Fits(current, edit) {
        return None;
      }
      var next := Apply(current, edit);
      var step := p.splice(current, tree, edit, next);
      if step.None? {
        return None;
      }
      current, tree := next, step.value;
    }
    if current != after {
      return None;
    }
    r := Some(tree);
  }

  lemma {:induction false} SpliceChainIsFaithful(p: Parser, text: string, edits: seq<Edit>)
    requires Faithful(p)
    ensures var r := SpliceChain(p, text, p.parse(text), edits);
      r.Some? ==> TryApply(text, edits) == Some(r.value.0) && r.value.1 == p.parse(r.value.0)
    decreases edits
  {
    if edits != [] && Fits(text, edits[0]) {
      SpliceChainIsFaithful(p, Apply(text, edits[0]), edits[1..]);
    }
  }

  /** Whatever chain is offered, a result is the true parse of the new text, and
      is given only when the chain really leads there. */
  lemma ReparseEditsIsFaithful(p: Parser, text: string, edits: seq<Edit>, after: string)
    requires Faithful(p)
    ensures var r := ReparseEdits(p, text, p.parse(text), edits, after);
      r.Some? ==> r.value == p.parse(after) && TryApply(text, edits) == Some(after)
  {
    SpliceChainIsFaithful(p, text, edits);
    if |edits| == 1 && Fits(text, edits[0]) {
      assert edits[1..] == [];
    }
  }
}
