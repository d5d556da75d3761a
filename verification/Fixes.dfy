/** Applying the fixes of a lint report to its text (src/linter/fix.rs): one pass
    with greedy overlap resolution, and the loop that re-lints until nothing is
    left to apply or the passes run out. */
module Fixes {
  import opened Sorting

  datatype Fix = Fix(start: nat, end: nat, content: string, safe: bool)

  datatype Diagnostic = Diagnostic(rule: string, fixes: seq<Fix>)

  datatype Applied = Applied(output: string, applied: nat)

  datatype FixOutcome = FixOutcome(output: string, applied: nat, remaining: seq<Diagnostic>)

  const MAX_PASSES: nat := 10

  // ---- Which fixes a pass accepts ----

  function Allowed(fixes: seq<Fix>, unsafeToo: bool): seq<Fix> {
    if fixes == [] then [] else (if unsafeToo || fixes[0].safe then [fixes[0]] else []) + Allowed(fixes[1..], unsafeToo)
  }

  function Eligible(diagnostics: seq<Diagnostic>, unsafeToo: bool): seq<Fix> {
    if diagnostics == [] then [] else Allowed(diagnostics[0].fixes, unsafeToo) + Eligible(diagnostics[1..], unsafeToo)
  }

  function FixKey(f: Fix): Key {
    (f.start, f.end)
  }

  function Accepted(fixes: seq<Fix>, lastEnd: nat): seq<Fix> {
    if fixes == [] then []
    else if fixes[0].start >= lastEnd then [fixes[0]] + Accepted(fixes[1..], fixes[0].end)
    else Accepted(fixes[1..], lastEnd)
  }

  function Skipped(fixes: seq<Fix>, lastEnd: nat): seq<Fix> {
    if fixes == [] then []
    else if fixes[0].start >= lastEnd then Skipped(fixes[1..], fixes[0].end)
    else [fixes[0]] + Skipped(fixes[1..], lastEnd)
  }

  function Chosen(diagnostics: seq<Diagnostic>, unsafeToo: bool): seq<Fix> {
    Accepted(SortBy(Eligible(diagnostics, unsafeToo), FixKey), 0)
  }

  /** What the program asks of the fixes it applies: ranges within the text. */
  ghost predicate WellPlaced(source: string, fixes: seq<Fix>) {
    forall f :: f in fixes ==> f.start <= f.end <= |source|
  }

  /** In order, each ending before the next starts, the first not before `from`. */
  ghost predicate Spaced(fixes: seq<Fix>, from: nat) {
    fixes != [] ==> from <= fixes[0].start <= fixes[0].end && Spaced(fixes[1..], fixes[0].end)
  }

  predicate Covers(a: Fix, f: Fix) {
    a.start <= f.start < a.end
  }

  /** Some accepted fix, or the one before them ending at `lastEnd`, covers it. */
  ghost predicate CoveredBy(accepted: seq<Fix>, lastEnd: nat, f: Fix) {
    f.start < lastEnd || exists a :: a in accepted && Covers(a, f)
  }

  lemma {:induction false} AcceptedIs(source: string, fixes: seq<Fix>, lastEnd: nat)
    requires WellPlaced(source, fixes) && OrderedBy(fixes, FixKey)
    ensures Spaced(Accepted(fixes, lastEnd), lastEnd)
    ensures multiset(Accepted(fixes, lastEnd)) + multiset(Skipped(fixes, lastEnd)) == multiset(fixes)
    ensures forall f :: f in Skipped(fixes, lastEnd) ==> CoveredBy(Accepted(fixes, lastEnd), lastEnd, f)
    decreases fixes
  {
    if fixes != [] {
      var first, rest := fixes[0], fixes[1..];
      assert fixes == [first] + rest;
      RestIsOrdered(fixes);
      if first.start >= lastEnd {
        AcceptedIs(source, rest, first.end);
        var accepted := Accepted(fixes, lastEnd);
        assert accepted[1..] == Accepted(rest, first.end);
        forall f | f in Skipped(rest, first.end)
          ensures CoveredBy(accepted, lastEnd, f)
        {
          SkippedFrom(rest, first.end, f);
          if f.start < first.end {
            assert first in accepted && Covers(first, f);
          } else {
            var a :| a in Accepted(rest, first.end) && Covers(a, f);
            assert a in accepted;
          }
        }
      } else {
        AcceptedIs(source, rest, lastEnd);
      }
    }
  }

  lemma RestIsOrdered(fixes: seq<Fix>)
    requires fixes != [] && OrderedBy(fixes, FixKey)
    ensures OrderedBy(fixes[1..], FixKey)
    ensures forall f :: f in fixes[1..] ==> fixes[0].start <= f.start
  {
    forall f | f in fixes[1..]
      ensures fixes[0].start <= f.start
    {
      var i :| 0 < i < |fixes| && fixes[i] == f;
      assert !Precedes(FixKey(fixes[i]), FixKey(fixes[0]));
    }
  }

  lemma {:induction false} SkippedFrom(fixes: seq<Fix>, lastEnd: nat, f: Fix)
    requires f in Skipped(fixes, lastEnd)
    ensures f in fixes
    decreases fixes
  {
    if fixes[0].start >= lastEnd {
      SkippedFrom(fixes[1..], fixes[0].end, f);
    } else if f != fixes[0] {
      SkippedFrom(fixes[1..], lastEnd, f);
    }
  }

  // ---- Splicing ----

  /** The text with all the fixes replaced at once, read left to right. */
  function Spliced(source: string, fixes: seq<Fix>, from: nat): string
    requires WellPlaced(source, fixes) && Spaced(fixes, from) && from <= |source|
  {
    if fixes == [] then source[from..]
    else
      assert forall f :: f in fixes[1..] ==> f in fixes;
      source[from..fixes[0].start] + fixes[0].content + Spliced(source, fixes[1..], fixes[0].end)
  }

  lemma Joins(source: string, from: nat, mid: nat, to: nat, rest: string)
    requires from <= mid <= to <= |source|
    ensures source[from..to] + rest == source[from..mid] + (source[mid..to] + rest)
    ensures source[from..] == source[from..mid] + source[mid..]
  {
    assert source[from..to] == source[from..mid] + source[mid..to];
  }

  lemma SplicedFirst(source: string, fixes: seq<Fix>, from: nat)
    requires WellPlaced(source, fixes) && Spaced(fixes, from) && from <= |source| && fixes != []
    ensures fixes[0].start <= fixes[0].end <= |source| && from <= fixes[0].start
    ensures WellPlaced(source, fixes[1..])
    ensures Spliced(source, fixes, from) ==
      source[from..fixes[0].start] + (fixes[0].content + Spliced(source, fixes[1..], fixes[0].end))
  {
    assert fixes[0] in fixes;
    assert forall f :: f in fixes[1..] ==> f in fixes;
    var a, b, c := source[from..fixes[0].start], fixes[0].content, Spliced(source, fixes[1..], fixes[0].end);
    assert (a + b) + c == a + (b + c);
  }

  /** Text before the first fix is untouched. */
  lemma SplicedFrom(source: string, fixes: seq<Fix>, from: nat, mid: nat)
    requires WellPlaced(source, fixes) && from <= mid <= |source| && Spaced(fixes, from) && Spaced(fixes, mid)
    ensures Spliced(source, fixes, from) == source[from..mid] + Spliced(source, fixes, mid)
  {
    if fixes == [] {
      Joins(source, from, mid, mid, "");
    } else {
      SplicedFirst(source, fixes, from);
      SplicedFirst(source, fixes, mid);
      hide Spliced, WellPlaced;
      Joins(source, from, mid, fixes[0].start, fixes[0].content + Spliced(source, fixes[1..], fixes[0].end));
    }
  }

  lemma SpacedEarlier(fixes: seq<Fix>, from: nat, mid: nat)
    requires from <= mid && Spaced(fixes, mid)
    ensures Spaced(fixes, from)
  {
  }

  lemma {:induction false} SpacedTail(fixes: seq<Fix>, from: nat, i: nat)
    requires Spaced(fixes, from) && i < |fixes|
    ensures fixes[i].start <= fixes[i].end && Spaced(fixes[i + 1..], fixes[i].end) && from <= fixes[i].start
    decreases i
  {
    if i > 0 {
      SpacedTail(fixes[1..], fixes[0].end, i - 1);
      assert fixes[1..][i..] == fixes[i + 1..];
    }
  }

  /** Replacing one range of a text whose later ranges are already replaced. */
  lemma ReplaceOne(source: string, f: Fix, later: seq<Fix>)
    requires WellPlaced(source, [f] + later) && Spaced([f] + later, 0) && WellPlaced(source, later)
    requires Spaced(later, f.end) && Spaced(later, 0) && f.start <= f.end <= |source|
    ensures var text := Spliced(source, later, 0);
      f.end <= |text| && text[..f.start] + f.content + text[f.end..] == Spliced(source, [f] + later, 0)
  {
    SplicedFrom(source, later, 0, f.end);
    var text := Spliced(source, later, 0);
    var after := Spliced(source, later, f.end);
    assert text == source[..f.end] + after;
    assert text[..f.start] == source[..f.start];
    assert text[f.end..] == after;
    assert ([f] + later)[1..] == later;
  }

  lemma SplicedNothing(source: string)
    ensures Spliced(source, [], 0) == source
  {
  }

  // ---- One pass ----

  method ApplyFixes(source: string, diagnostics: seq<Diagnostic>, unsafeToo: bool) returns (r: Applied)
    requires WellPlaced(source, Eligible(diagnostics, unsafeToo))
    ensures WellPlaced(source, Chosen(diagnostics, unsafeToo)) && Spaced(Chosen(diagnostics, unsafeToo), 0)
    ensures r == Applied(Spliced(source, Chosen(diagnostics, unsafeToo), 0), |Chosen(diagnostics, unsafeToo)|)
  {
    ChosenIs(source, diagnostics, unsafeToo);
    hide WellPlaced, Spaced, SortBy, Eligible, Skipped, Covers;
    var accepted := AcceptGreedily(SortBy(Eligible(diagnostics, unsafeToo), FixKey));
    var output := ReplaceBackwards(source, accepted);
    r := Applied(output, |accepted|);
  }

  method AcceptGreedily(fixes: seq<Fix>) returns (accepted: seq<Fix>)
    ensures accepted == Accepted(fixes, 0)
  {
    accepted := [];
    var lastEnd := 0;
    for i := 0 to |fixes|
      invariant accepted + Accepted(fixes[i..], lastEnd) == Accepted(fixes, 0)
    {
      assert fixes[i..][0] == fixes[i] && fixes[i..][1..] == fixes[i + 1..];
      if fixes[i].start >= lastEnd {
        assert (accepted + [fixes[i]]) + Accepted(fixes[i + 1..], fixes[i].end)
          == accepted + ([fixes[i]] + Accepted(fixes[i + 1..], fixes[i].end));
        lastEnd := fixes[i].end;
        accepted := accepted + [fixes[i]];
      }
    }
  }

  /** Later replacements first, so that earlier offsets stay valid. */
  method ReplaceBackwards(source: string, accepted: seq<Fix>) returns (output: string)
    requires WellPlaced(source, accepted) && Spaced(accepted, 0)
    ensures output == Spliced(source, accepted, 0)
  {
    output := source;
    SplicedNothing(source);
    assert accepted[|accepted|..] == [];
    hide Spliced;
    for i := |accepted| downto 0
      invariant WellPlaced(source, accepted[i..]) && Spaced(accepted[i..], 0)
      invariant output == Spliced(source, accepted[i..], 0)
    {
      var f := accepted[i];
      assert accepted[i..] == [f] + accepted[i + 1..];
      SpacedTail(accepted, 0, i);
      SpacedEarlier([f] + accepted[i + 1..], 0, f.start);
      assert f in accepted;
      ReplaceOne(source, f, accepted[i + 1..]);
      output := output[..f.start] + f.content + output[f.end..];
    }
    assert accepted[0..] == accepted;
  }

  /** The accepted fixes lie in order without overlap; what is not accepted starts
      inside something that is; together they are the eligible fixes. */
  lemma ChosenIs(source: string, diagnostics: seq<Diagnostic>, unsafeToo: bool)
    requires WellPlaced(source, Eligible(diagnostics, unsafeToo))
    ensures var eligible := Eligible(diagnostics, unsafeToo);
      var sorted := SortBy(eligible, FixKey);
      var chosen := Chosen(diagnostics, unsafeToo);
      && WellPlaced(source, chosen) && Spaced(chosen, 0)
      && multiset(chosen) + multiset(Skipped(sorted, 0)) == multiset(eligible)
      && forall f :: f in Skipped(sorted, 0) ==> exists a :: a in chosen && Covers(a, f)
  {
    var eligible := Eligible(diagnostics, unsafeToo);
    var sorted := SortBy(eligible, FixKey);
    SortByIs(eligible, FixKey, (0, 0));
    hide SortBy, OrderedBy, Accepted, Skipped, Eligible, Spaced, Covers;
    PlacedPart(source, sorted, [], eligible);
    AcceptedIs(source, sorted, 0);
    PlacedPart(source, Accepted(sorted, 0), Skipped(sorted, 0), eligible);
    hide WellPlaced;
    forall f | f in Skipped(sorted, 0)
      ensures exists a :: a in Accepted(sorted, 0) && Covers(a, f)
    {
      assert CoveredBy(Accepted(sorted, 0), 0, f);
    }
  }

  lemma PlacedPart(source: string, part: seq<Fix>, other: seq<Fix>, all: seq<Fix>)
    requires WellPlaced(source, all) && multiset(part) + multiset(other) == multiset(all)
    ensures WellPlaced(source, part)
  {
    forall f | f in part
      ensures f.start <= f.end <= |source|
    {
      assert f in multiset(part) && f in multiset(all);
    }
  }

  /** A pass applies nothing exactly when nothing is eligible. */
  lemma NothingChosen(diagnostics: seq<Diagnostic>, unsafeToo: bool)
    ensures Chosen(diagnostics, unsafeToo) == [] <==> Eligible(diagnostics, unsafeToo) == []
  {
    SortByLength(Eligible(diagnostics, unsafeToo), FixKey);
    hide SortBy, Eligible;
  }

  // ---- The loop ----

  type Check = string -> seq<Diagnostic>

  ghost predicate Sound(check: Check, unsafeToo: bool) {
    forall text: string :: WellPlaced(text, Eligible(check(text), unsafeToo))
  }

  ghost predicate Settled(check: Check, text: string, unsafeToo: bool) {
    Eligible(check(text), unsafeToo) == []
  }

  function OnePass(check: Check, text: string, unsafeToo: bool): string
    requires Sound(check, unsafeToo)
  {
    ChosenIs(text, check(text), unsafeToo);
    Spliced(text, Chosen(check(text), unsafeToo), 0)
  }

  ghost function Passes(check: Check, text: string, unsafeToo: bool, n: nat): FixOutcome
    requires Sound(check, unsafeToo)
    decreases n
  {
    if n == 0 || Settled(check, text, unsafeToo) then FixOutcome(text, 0, check(text))
    else
      var later := Passes(check, OnePass(check, text, unsafeToo), unsafeToo, n - 1);
      later.(applied := |Chosen(check(text), unsafeToo)| + later.applied)
  }

  method FixWith(text: string, unsafeToo: bool, check: Check) returns (r: FixOutcome)
    requires Sound(check, unsafeToo)
    ensures r == Passes(check, text, unsafeToo, MAX_PASSES)
  {
    hide Chosen, Eligible, WellPlaced, Spaced, Spliced;
    var current, total: nat := text, 0;
    for i := 0 to MAX_PASSES
      invariant var later := Passes(check, current, unsafeToo, MAX_PASSES - i);
        Passes(check, text, unsafeToo, MAX_PASSES) == later.(applied := total + later.applied)
    {
      var report := check(current);
      NothingChosen(report, unsafeToo);
      var pass := ApplyFixes(current, report, unsafeToo);
      if pass.applied == 0 {
        return FixOutcome(current, total, report);
      }
      total := total + pass.applied;
      current := pass.output;
    }
    var report := check(current);
    r := FixOutcome(current, total, report);
  }

  /** The text after up to `n` passes, none past a settled one. */
  ghost function After(check: Check, text: string, unsafeToo: bool, n: nat): string
    requires Sound(check, unsafeToo)
    decreases n
  {
    if n == 0 || Settled(check, text, unsafeToo) then text else After(check, OnePass(check, text, unsafeToo), unsafeToo, n - 1)
  }

  /** What remains is always the report on the text returned, and either that text
      is settled or every allowed pass applied something. */
  lemma {:induction false} OutcomeIs(check: Check, text: string, unsafeToo: bool, n: nat)
    requires Sound(check, unsafeToo)
    ensures var r := Passes(check, text, unsafeToo, n);
      && r.output == After(check, text, unsafeToo, n)
      && r.remaining == check(r.output)
      && (Settled(check, r.output, unsafeToo) || r.applied >= n)
      && (r.applied == 0 && n > 0 ==> r.output == text && Settled(check, text, unsafeToo))
    decreases n
  {
    hide Chosen, OnePass, Sound;
    if n > 0 && !Settled(check, text, unsafeToo) {
      NothingChosen(check(text), unsafeToo);
      hide Settled;
      OutcomeIs(check, OnePass(check, text, unsafeToo), unsafeToo, n - 1);
    }
  }

  /** Once settled, running again changes nothing, however many passes it gets. */
  lemma {:induction false} SettledIsFixed(check: Check, text: string, unsafeToo: bool, n: nat, again: nat)
    requires Sound(check, unsafeToo)
    requires Settled(check, Passes(check, text, unsafeToo, n).output, unsafeToo)
    ensures var r := Passes(check, text, unsafeToo, n);
      && Passes(check, r.output, unsafeToo, again) == FixOutcome(r.output, 0, r.remaining)
      && Passes(check, text, unsafeToo, n + again) == r
    decreases n
  {
    hide Chosen, OnePass, Sound, Settled;
    OutcomeIs(check, text, unsafeToo, n);
    if n > 0 && !Settled(check, text, unsafeToo) {
      SettledIsFixed(check, OnePass(check, text, unsafeToo), unsafeToo, n - 1, again);
    }
  }
}
