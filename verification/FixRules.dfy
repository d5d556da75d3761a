/** Which fixes a pass applies (src/linter/fix.rs), said of their places in the
    report: the admitted fixes in order of start, end and place, each taken unless
    one taken before it reaches past its start. */
module FixRules {
  import opened Sorting
  import opened Fixes

  /** A fix of the report: the diagnostic, and the position in its list. */
  datatype Place = Place(diagnostic: nat, item: nat)

  predicate Exists(report: seq<Diagnostic>, p: Place) {
    p.diagnostic < |report| && p.item < |report[p.diagnostic].fixes|
  }

  function At(report: seq<Diagnostic>, p: Place): Fix
    requires Exists(report, p)
  {
    report[p.diagnostic].fixes[p.item]
  }

  /** Safe fixes are admitted always, others on request. */
  predicate Admitted(report: seq<Diagnostic>, unsafeToo: bool, p: Place) {
    Exists(report, p) && (At(report, p).safe || unsafeToo)
  }

  predicate Sooner(a: Place, b: Place) {
    a.diagnostic < b.diagnostic || (a.diagnostic == b.diagnostic && a.item < b.item)
  }

  /** The order in which fixes are considered. */
  predicate Comes(report: seq<Diagnostic>, a: Place, b: Place) {
    && Exists(report, a) && Exists(report, b)
    && var f, g := At(report, a), At(report, b);
       || f.start < g.start
       || (f.start == g.start && (f.end < g.end || (f.end == g.end && Sooner(a, b))))
  }

  // ---- The admitted fixes, in report order ----

  ghost predicate Lists(report: seq<Diagnostic>, unsafeToo: bool, fixes: seq<Fix>, places: seq<Place>, from: Place) {
    && |fixes| == |places|
    && (forall i :: 0 <= i < |places| ==>
          Admitted(report, unsafeToo, places[i]) && fixes[i] == At(report, places[i]) && !Sooner(places[i], from))
    && (forall i, j :: 0 <= i < j < |places| ==> Sooner(places[i], places[j]))
    && forall p :: Admitted(report, unsafeToo, p) && !Sooner(p, from) ==> p in places
  }

  lemma ListsNext(report: seq<Diagnostic>, unsafeToo: bool, fixes: seq<Fix>, places: seq<Place>, from: Place)
    requires Exists(report, from) && Lists(report, unsafeToo, fixes, places, from.(item := from.item + 1))
    ensures var f := At(report, from);
      if unsafeToo || f.safe then Lists(report, unsafeToo, [f] + fixes, [from] + places, from)
      else Lists(report, unsafeToo, fixes, places, from)
  {
    forall p | Admitted(report, unsafeToo, p) && !Sooner(p, from)
      ensures p == from || p in places
    {
    }
  }

  lemma ListsOver(report: seq<Diagnostic>, unsafeToo: bool, fixes: seq<Fix>, places: seq<Place>, d: nat)
    requires d < |report| && Lists(report, unsafeToo, fixes, places, Place(d + 1, 0))
    ensures Lists(report, unsafeToo, fixes, places, Place(d, |report[d].fixes|))
  {
    hide At;
  }

  lemma {:induction false} AllowedPlaces(report: seq<Diagnostic>, unsafeToo: bool, d: nat, j: nat, rest: seq<Fix>, after: seq<Place>)
    returns (places: seq<Place>)
    requires d < |report| && j <= |report[d].fixes| && Lists(report, unsafeToo, rest, after, Place(d + 1, 0))
    ensures Lists(report, unsafeToo, Allowed(report[d].fixes[j..], unsafeToo) + rest, places, Place(d, j))
    decreases |report[d].fixes| - j
  {
    hide Lists, Allowed, At;
    var fixes := report[d].fixes;
    if j == |fixes| {
      ListsOver(report, unsafeToo, rest, after, d);
      assert fixes[j..] == [];
      NothingAllowed(unsafeToo, rest);
      places := after;
    } else {
      var more := AllowedPlaces(report, unsafeToo, d, j + 1, rest, after);
      AllowedNext(fixes, unsafeToo, j, rest);
      ListsNext(report, unsafeToo, Allowed(fixes[j + 1..], unsafeToo) + rest, more, Place(d, j));
      FixIsAt(report, d, j);
      places := if unsafeToo || fixes[j].safe then [Place(d, j)] + more else more;
    }
  }

  lemma FixIsAt(report: seq<Diagnostic>, d: nat, j: nat)
    requires d < |report| && j < |report[d].fixes|
    ensures Exists(report, Place(d, j)) && At(report, Place(d, j)) == report[d].fixes[j]
  {
  }

  lemma NothingAllowed(unsafeToo: bool, rest: seq<Fix>)
    ensures Allowed([], unsafeToo) + rest == rest
  {
    assert [] + rest == rest;
  }

  lemma AllowedNext(fixes: seq<Fix>, unsafeToo: bool, j: nat, rest: seq<Fix>)
    requires j < |fixes|
    ensures var others := Allowed(fixes[j + 1..], unsafeToo) + rest;
      Allowed(fixes[j..], unsafeToo) + rest == if unsafeToo || fixes[j].safe then [fixes[j]] + others else others
  {
    assert fixes[j..][0] == fixes[j] && fixes[j..][1..] == fixes[j + 1..];
    var others := Allowed(fixes[j + 1..], unsafeToo);
    hide Allowed;
    assert [fixes[j]] + others + rest == [fixes[j]] + (others + rest);
    assert [] + others == others;
  }

  lemma {:induction false} EligiblePlaces(report: seq<Diagnostic>, unsafeToo: bool, d: nat) returns (places: seq<Place>)
    requires d <= |report|
    ensures Lists(report, unsafeToo, Eligible(report[d..], unsafeToo), places, Place(d, 0))
    decreases |report| - d
  {
    if d == |report| {
      places := [];
    } else {
      hide Lists;
      var more := EligiblePlaces(report, unsafeToo, d + 1);
      assert report[d..][0] == report[d] && report[d..][1..] == report[d + 1..];
      places := AllowedPlaces(report, unsafeToo, d, 0, Eligible(report[d + 1..], unsafeToo), more);
      assert report[d].fixes[0..] == report[d].fixes;
    }
  }

  // ---- Sorted ----

  /** Position `i` of the list comes before position `j`. */
  predicate Before(fixes: seq<Fix>, i: nat, j: nat) {
    && i < |fixes| && j < |fixes|
    && (Precedes(FixKey(fixes[i]), FixKey(fixes[j])) || (FixKey(fixes[i]) == FixKey(fixes[j]) && i < j))
  }

  /** `order` lists positions of the list, and `sorted` the fixes there. */
  ghost predicate Arranged(fixes: seq<Fix>, sorted: seq<Fix>, order: seq<nat>) {
    && |order| == |sorted|
    && (forall k :: 0 <= k < |order| ==> order[k] < |fixes| && sorted[k] == fixes[order[k]])
    && forall k, l :: 0 <= k < l < |order| ==> Before(fixes, order[k], order[l])
  }

  lemma {:induction false} InsertArranged(fixes: seq<Fix>, sorted: seq<Fix>, order: seq<nat>, n: nat) returns (more: seq<nat>)
    requires Arranged(fixes, sorted, order) && n < |fixes| && forall k :: 0 <= k < |order| ==> order[k] < n
    ensures Arranged(fixes, Insert(sorted, fixes[n], FixKey), more)
    ensures forall i :: i in more <==> i == n || i in order
    decreases |sorted|
  {
    var x, m := fixes[n], |sorted|;
    if sorted == [] || !Precedes(FixKey(x), FixKey(sorted[m - 1])) {
      more := order + [n];
      LastArranged(fixes, sorted, order, n);
    } else {
      var front := InsertArranged(fixes, sorted[..m - 1], order[..m - 1], n);
      more := front + [order[m - 1]];
      assert order == order[..m - 1] + [order[m - 1]];
      FrontArranged(fixes, sorted, order, n, front);
    }
  }

  lemma LastArranged(fixes: seq<Fix>, sorted: seq<Fix>, order: seq<nat>, n: nat)
    requires Arranged(fixes, sorted, order) && n < |fixes| && forall k :: 0 <= k < |order| ==> order[k] < n
    requires sorted == [] || !Precedes(FixKey(fixes[n]), FixKey(sorted[|sorted| - 1]))
    ensures Arranged(fixes, sorted + [fixes[n]], order + [n])
  {
    forall k | 0 <= k < |order|
      ensures Before(fixes, order[k], n)
    {
      assert k < |order| - 1 ==> Before(fixes, order[k], order[|order| - 1]);
    }
  }

  lemma FrontArranged(fixes: seq<Fix>, sorted: seq<Fix>, order: seq<nat>, n: nat, front: seq<nat>)
    requires Arranged(fixes, sorted, order) && sorted != [] && n < |fixes|
    requires Precedes(FixKey(fixes[n]), FixKey(sorted[|sorted| - 1]))
    requires var init := sorted[..|sorted| - 1];
      Arranged(fixes, Insert(init, fixes[n], FixKey), front) && forall i :: i in front <==> i == n || i in order[..|order| - 1]
    ensures Arranged(fixes, Insert(sorted[..|sorted| - 1], fixes[n], FixKey) + [sorted[|sorted| - 1]], front + [order[|order| - 1]])
  {
    var last := order[|order| - 1];
    forall k | 0 <= k < |front|
      ensures Before(fixes, front[k], last)
    {
      assert front[k] in front;
      if front[k] != n {
        var l :| 0 <= l < |order| - 1 && order[..|order| - 1][l] == front[k];
        assert Before(fixes, order[l], order[|order| - 1]);
      }
    }
  }

  lemma {:induction false} SortArranged(fixes: seq<Fix>, n: nat) returns (order: seq<nat>)
    requires n <= |fixes|
    ensures Arranged(fixes, SortBy(fixes[..n], FixKey), order)
    ensures forall i: nat :: i in order <==> i < n
    decreases n
  {
    if n == 0 {
      order := [];
    } else {
      assert fixes[..n][..n - 1] == fixes[..n - 1] && fixes[..n][n - 1] == fixes[n - 1];
      var before := SortArranged(fixes, n - 1);
      hide Arranged, Insert;
      assert forall k :: 0 <= k < |before| ==> before[k] in before;
      order := InsertArranged(fixes, SortBy(fixes[..n - 1], FixKey), before, n - 1);
    }
  }

  // ---- Taken ----

  /** Nothing taken before position `k` reaches past its start. */
  ghost predicate Clear(fixes: seq<Fix>, taken: seq<nat>, i: nat) {
    forall q :: q in taken && Before(fixes, q, i) ==> fixes[q].end <= fixes[i].start
  }

  /** Of the positions considered, those are taken that start late enough and that
      nothing taken before reaches past. */
  ghost predicate Takes(fixes: seq<Fix>, order: seq<nat>, lastEnd: nat, accepted: seq<Fix>, taken: seq<nat>) {
    && Arranged(fixes, accepted, taken)
    && (forall i :: i in taken ==> i < |fixes| && i in order && fixes[i].start >= lastEnd)
    && forall i :: i in order ==> i < |fixes| && (i in taken <==> fixes[i].start >= lastEnd && Clear(fixes, taken, i))
  }

  lemma TailArranged(fixes: seq<Fix>, sorted: seq<Fix>, order: seq<nat>)
    requires Arranged(fixes, sorted, order) && order != []
    ensures Arranged(fixes, sorted[1..], order[1..]) && order[0] < |fixes| && sorted[0] == fixes[order[0]]
    ensures forall i :: i in order[1..] ==> Before(fixes, order[0], i)
    ensures forall i :: i in order <==> i == order[0] || i in order[1..]
  {
    assert order == [order[0]] + order[1..];
  }

  lemma BeforeIsStrict(fixes: seq<Fix>, i: nat, j: nat)
    ensures !(Before(fixes, i, j) && Before(fixes, j, i))
  {
  }

  lemma ConsArranged(fixes: seq<Fix>, accepted: seq<Fix>, taken: seq<nat>, i: nat)
    requires Arranged(fixes, accepted, taken) && i < |fixes| && forall j :: j in taken ==> Before(fixes, i, j)
    ensures Arranged(fixes, [fixes[i]] + accepted, [i] + taken)
  {
    assert forall k :: 0 <= k < |taken| ==> taken[k] in taken;
    hide Before;
  }

  lemma TakeFirst(fixes: seq<Fix>, order: seq<nat>, lastEnd: nat, accepted: seq<Fix>, rest: seq<nat>)
    requires order != [] && order[0] < |fixes| && lastEnd <= fixes[order[0]].start <= fixes[order[0]].end
    requires Takes(fixes, order[1..], fixes[order[0]].end, accepted, rest)
    requires forall i :: i in order[1..] ==> Before(fixes, order[0], i)
    requires forall i :: i in order <==> i == order[0] || i in order[1..]
    ensures Takes(fixes, order, lastEnd, [fixes[order[0]]] + accepted, [order[0]] + rest)
  {
    var first := order[0];
    var taken := [first] + rest;
    ConsArranged(fixes, accepted, rest, first);
    hide Arranged;
    forall i | i in order
      ensures i < |fixes| && (i in taken <==> fixes[i].start >= lastEnd && Clear(fixes, taken, i))
    {
      assert forall q :: q in taken <==> q == first || q in rest;
      if i == first {
        forall q | q in rest
          ensures !Before(fixes, q, first)
        {
          BeforeIsStrict(fixes, q, first);
        }
      } else {
        hide Before;
        assert Clear(fixes, taken, i) <==> fixes[first].end <= fixes[i].start && Clear(fixes, rest, i);
      }
    }
  }

  lemma LeaveFirst(fixes: seq<Fix>, order: seq<nat>, lastEnd: nat, accepted: seq<Fix>, rest: seq<nat>)
    requires order != [] && order[0] < |fixes| && fixes[order[0]].start < lastEnd
    requires Takes(fixes, order[1..], lastEnd, accepted, rest)
    requires forall i :: i in order[1..] ==> Before(fixes, order[0], i)
    requires forall i :: i in order <==> i == order[0] || i in order[1..]
    ensures Takes(fixes, order, lastEnd, accepted, rest)
  {
    hide Clear, Before, Arranged;
  }

  lemma {:induction false} AcceptTakes(fixes: seq<Fix>, sorted: seq<Fix>, order: seq<nat>, lastEnd: nat) returns (taken: seq<nat>)
    requires Arranged(fixes, sorted, order) && forall i :: 0 <= i < |fixes| ==> fixes[i].start <= fixes[i].end
    ensures Takes(fixes, order, lastEnd, Accepted(sorted, lastEnd), taken)
    decreases |order|
  {
    if order == [] {
      taken := [];
    } else {
      TailArranged(fixes, sorted, order);
      hide Arranged, Before, Takes;
      if sorted[0].start >= lastEnd {
        var rest := AcceptTakes(fixes, sorted[1..], order[1..], sorted[0].end);
        TakeFirst(fixes, order, lastEnd, Accepted(sorted[1..], sorted[0].end), rest);
        taken := [order[0]] + rest;
      } else {
        taken := AcceptTakes(fixes, sorted[1..], order[1..], lastEnd);
        LeaveFirst(fixes, order, lastEnd, Accepted(sorted[1..], lastEnd), taken);
      }
    }
  }

  // ---- In terms of the report ----

  /** The fixes at the places, one by one, in the order they are considered. */
  ghost predicate Applies(report: seq<Diagnostic>, chosen: seq<Fix>, at: seq<Place>) {
    && |at| == |chosen|
    && (forall k :: 0 <= k < |at| ==> Exists(report, at[k]) && chosen[k] == At(report, at[k]))
    && forall k, l :: 0 <= k < l < |at| ==> Comes(report, at[k], at[l])
  }

  /** No place taken that comes before reaches past its start. */
  ghost predicate Unobstructed(report: seq<Diagnostic>, at: seq<Place>, p: Place) {
    Exists(report, p) && forall q :: q in at && Comes(report, q, p) ==> At(report, q).end <= At(report, p).start
  }

  lemma BeforeComes(report: seq<Diagnostic>, unsafeToo: bool, fixes: seq<Fix>, places: seq<Place>, i: nat, j: nat)
    requires Lists(report, unsafeToo, fixes, places, Place(0, 0)) && i < |fixes| && j < |fixes|
    ensures Before(fixes, i, j) <==> Comes(report, places[i], places[j])
  {
    assert i < j ==> Sooner(places[i], places[j]);
    assert j < i ==> Sooner(places[j], places[i]);
  }

  lemma PlacesTaken(report: seq<Diagnostic>, unsafeToo: bool, fixes: seq<Fix>, places: seq<Place>, taken: seq<nat>)
    returns (at: seq<Place>)
    requires Lists(report, unsafeToo, fixes, places, Place(0, 0)) && forall k :: 0 <= k < |taken| ==> taken[k] < |fixes|
    ensures |places| == |fixes|
    ensures |at| == |taken| && forall k :: 0 <= k < |at| ==> at[k] == places[taken[k]]
    ensures forall i :: 0 <= i < |fixes| ==> (places[i] in at <==> i in taken)
  {
    at := seq(|taken|, k requires 0 <= k < |taken| => places[taken[k]]);
    forall i | 0 <= i < |fixes|
      ensures places[i] in at <==> i in taken
    {
      if i in taken {
        var k :| 0 <= k < |taken| && taken[k] == i;
        assert at[k] == places[i];
      }
      if places[i] in at {
        var k :| 0 <= k < |at| && at[k] == places[i];
        assert !Sooner(places[i], places[taken[k]]) && !Sooner(places[taken[k]], places[i]);
        assert taken[k] == i;
      }
    }
  }

  lemma ClearIsUnobstructed(report: seq<Diagnostic>, unsafeToo: bool, fixes: seq<Fix>, places: seq<Place>, taken: seq<nat>,
                            at: seq<Place>, i: nat)
    requires Lists(report, unsafeToo, fixes, places, Place(0, 0)) && i < |fixes|
    requires |at| == |taken| && forall k :: 0 <= k < |at| ==> taken[k] < |fixes| && at[k] == places[taken[k]]
    ensures Clear(fixes, taken, i) <==> Unobstructed(report, at, places[i])
  {
    forall j | 0 <= j < |fixes|
      ensures Before(fixes, j, i) <==> Comes(report, places[j], places[i])
    {
      BeforeComes(report, unsafeToo, fixes, places, j, i);
    }
    hide Before, Comes;
    if Clear(fixes, taken, i) {
      forall q | q in at && Comes(report, q, places[i])
        ensures Exists(report, q) && At(report, q).end <= At(report, places[i]).start
      {
        var k :| 0 <= k < |at| && at[k] == q;
        assert taken[k] in taken;
      }
    }
    if Unobstructed(report, at, places[i]) {
      forall q | q in taken && Before(fixes, q, i)
        ensures q < |fixes| && fixes[q].end <= fixes[i].start
      {
        var k :| 0 <= k < |taken| && taken[k] == q;
        assert at[k] in at;
      }
    }
  }

  /** One pass applies the admitted fixes that nothing obstructs, in order: a fix is
      left out exactly when one that is applied comes before it and ends behind its
      start. */
  lemma ChosenAre(report: seq<Diagnostic>, unsafeToo: bool) returns (at: seq<Place>)
    requires forall p :: Admitted(report, unsafeToo, p) ==> At(report, p).start <= At(report, p).end
    ensures Applies(report, Chosen(report, unsafeToo), at)
    ensures forall p :: p in at <==> Admitted(report, unsafeToo, p) && Unobstructed(report, at, p)
  {
    hide Eligible, SortBy, Arranged, Comes, Takes, Lists, Unobstructed, Applies;
    var fixes := Eligible(report, unsafeToo);
    assert report[0..] == report;
    var places := EligiblePlaces(report, unsafeToo, 0);
    assert fixes[..|fixes|] == fixes;
    var order := SortArranged(fixes, |fixes|);
    FixesAreOrdered(report, unsafeToo, fixes, places);
    var taken := AcceptTakes(fixes, SortBy(fixes, FixKey), order, 0);
    at := ChosenPlaces(report, unsafeToo, fixes, places, order, Chosen(report, unsafeToo), taken);
  }

  lemma FixesAreOrdered(report: seq<Diagnostic>, unsafeToo: bool, fixes: seq<Fix>, places: seq<Place>)
    requires Lists(report, unsafeToo, fixes, places, Place(0, 0))
    requires forall p :: Admitted(report, unsafeToo, p) ==> At(report, p).start <= At(report, p).end
    ensures forall i :: 0 <= i < |fixes| ==> fixes[i].start <= fixes[i].end
  {
    hide At;
  }

  lemma ChosenPlaces(report: seq<Diagnostic>, unsafeToo: bool, fixes: seq<Fix>, places: seq<Place>, order: seq<nat>,
                     chosen: seq<Fix>, taken: seq<nat>)
    returns (at: seq<Place>)
    requires Lists(report, unsafeToo, fixes, places, Place(0, 0)) && Takes(fixes, order, 0, chosen, taken)
    requires forall i: nat :: i in order <==> i < |fixes|
    ensures Applies(report, chosen, at)
    ensures forall p :: p in at <==> Admitted(report, unsafeToo, p) && Unobstructed(report, at, p)
  {
    hide Lists, Arranged, Clear, Applies, Unobstructed;
    assert forall k :: 0 <= k < |taken| ==> taken[k] in taken;
    at := PlacesTaken(report, unsafeToo, fixes, places, taken);
    AppliedInOrder(report, unsafeToo, fixes, places, chosen, taken, at);
    forall i | 0 <= i < |fixes|
      ensures i in taken <==> Unobstructed(report, at, places[i])
    {
      SamePlaces(report, unsafeToo, fixes, places);
      ClearIsUnobstructed(report, unsafeToo, fixes, places, taken, at, i);
    }
    OnlyPlaces(report, unsafeToo, fixes, places, taken, at);
  }

  lemma SamePlaces(report: seq<Diagnostic>, unsafeToo: bool, fixes: seq<Fix>, places: seq<Place>)
    requires Lists(report, unsafeToo, fixes, places, Place(0, 0))
    ensures |places| == |fixes|
  {
  }

  lemma AppliedInOrder(report: seq<Diagnostic>, unsafeToo: bool, fixes: seq<Fix>, places: seq<Place>, chosen: seq<Fix>,
                       taken: seq<nat>, at: seq<Place>)
    requires Lists(report, unsafeToo, fixes, places, Place(0, 0)) && Arranged(fixes, chosen, taken)
    requires |at| == |taken| && forall k :: 0 <= k < |at| ==> taken[k] < |fixes| && at[k] == places[taken[k]]
    ensures Applies(report, chosen, at)
  {
    forall k, l | 0 <= k < l < |at|
      ensures Comes(report, at[k], at[l])
    {
      assert Before(fixes, taken[k], taken[l]);
      BeforeComes(report, unsafeToo, fixes, places, taken[k], taken[l]);
    }
    hide Before, Comes;
  }

  lemma OnlyPlaces(report: seq<Diagnostic>, unsafeToo: bool, fixes: seq<Fix>, places: seq<Place>, taken: seq<nat>, at: seq<Place>)
    requires Lists(report, unsafeToo, fixes, places, Place(0, 0))
    requires |at| == |taken| && forall k :: 0 <= k < |at| ==> taken[k] < |fixes| && at[k] == places[taken[k]]
    requires forall i :: 0 <= i < |fixes| ==> (places[i] in at <==> i in taken)
    requires forall i :: 0 <= i < |fixes| ==> (i in taken <==> Unobstructed(report, at, places[i]))
    ensures forall p :: p in at <==> Admitted(report, unsafeToo, p) && Unobstructed(report, at, p)
  {
    hide Unobstructed;
    forall p
      ensures p in at <==> Admitted(report, unsafeToo, p) && Unobstructed(report, at, p)
    {
      if p in at {
        var k :| 0 <= k < |at| && at[k] == p;
        assert places[taken[k]] in at;
      }
      if Admitted(report, unsafeToo, p) {
        assert !Sooner(p, Place(0, 0));
        var i :| 0 <= i < |places| && places[i] == p;
      }
    }
  }

  // ---- The number of passes ----

  const INSERT_X: seq<Diagnostic> := [Diagnostic("grow", [Fix(0, 0, "x", true)])]

  /** A rule that offers to insert a letter again after every pass. */
  function Grow(text: string): seq<Diagnostic> {
    INSERT_X
  }

  lemma GrowOffers(unsafeToo: bool)
    ensures Sound(Grow, unsafeToo)
    ensures forall text: string :: !Settled(Grow, text, unsafeToo)
    ensures Chosen(INSERT_X, unsafeToo) == [Fix(0, 0, "x", true)]
  {
    var fix := Fix(0, 0, "x", true);
    assert INSERT_X[0].fixes[1..] == [] && INSERT_X[1..] == [];
    assert Allowed([], unsafeToo) == [] && Allowed(INSERT_X[0].fixes, unsafeToo) == [fix];
    assert Eligible([], unsafeToo) == [] && Eligible(INSERT_X, unsafeToo) == [fix];
    assert [fix][..0] == [];
    assert SortBy([fix], FixKey) == [fix];
    assert [fix][1..] == [];
  }

  lemma GrowOnce(text: string, unsafeToo: bool)
    requires Sound(Grow, unsafeToo)
    ensures OnePass(Grow, text, unsafeToo) == "x" + text
  {
    GrowOffers(unsafeToo);
    ChosenIs(text, Grow(text), unsafeToo);
    hide Chosen, Sound;
    SplicedFirst(text, [Fix(0, 0, "x", true)], 0);
    assert [Fix(0, 0, "x", true)][1..] == [];
    assert text[0..0] == "" && text[0..] == text;
    assert "" + ("x" + text) == "x" + text;
  }

  /** Each pass of a rule that never settles is applied, up to the last. */
  lemma {:induction false} GrowPasses(text: string, unsafeToo: bool, n: nat)
    requires Sound(Grow, unsafeToo)
    ensures Passes(Grow, text, unsafeToo, n) == FixOutcome(seq(n, _ => 'x') + text, n, INSERT_X)
    decreases n
  {
    GrowOffers(unsafeToo);
    hide Chosen, Sound, OnePass, Settled;
    if n == 0 {
      assert seq(0, _ => 'x') + text == text;
    } else {
      GrowOnce(text, unsafeToo);
      GrowPasses("x" + text, unsafeToo, n - 1);
      assert seq(n - 1, _ => 'x') + ("x" + text) == seq(n, _ => 'x') + text;
    }
  }

  /** Fixing stops after ten passes, whatever is left. */
  lemma TenPasses(unsafeToo: bool)
    ensures Sound(Grow, unsafeToo)
    ensures Passes(Grow, "", unsafeToo, MAX_PASSES) == FixOutcome("xxxxxxxxxx", 10, INSERT_X)
  {
    GrowOffers(unsafeToo);
    GrowPasses("", unsafeToo, 10);
    assert seq(10, _ => 'x') + "" == "xxxxxxxxxx";
  }
}
