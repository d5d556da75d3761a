/** What an edit of a compatibility specification does to the set of versions it
    admits: the edited text reads back, admits the requested version, changes one
    clause at most, and is left alone by the same edit. */
module CompatEdits {
  import opened Wrappers
  import opened Sequences
  import opened Text
  import opened Versions
  import opened Compat
  import opened CompatClauses
  import opened CompatParsing

  // ---- The clause an edit works on ----

  predicate Kept(c: Clause, containing: Option<Version>) {
    containing.None? || InRange(c.interval, containing.value)
  }

  /** The greatest floor among the kept clauses, and the last of those that share it. */
  ghost predicate IsBest(clauses: seq<Clause>, containing: Option<Version>, k: nat) {
    && k < |clauses| && Kept(clauses[k], containing)
    && forall j :: 0 <= j < |clauses| && Kept(clauses[j], containing) ==>
         && AtMost(clauses[j].interval.min, clauses[k].interval.min)
         && (k < j ==> Less(clauses[j].interval.min, clauses[k].interval.min))
  }

  lemma {:induction false} SelectedIsBest(clauses: seq<Clause>, containing: Option<Version>)
    ensures match Selected(clauses, containing)
      case None => forall j :: 0 <= j < |clauses| ==> !Kept(clauses[j], containing)
      case Some(k) => IsBest(clauses, containing, k)
    decreases |clauses|
  {
    if clauses != [] {
      var k := |clauses| - 1;
      SelectedIsBest(clauses[..k], containing);
      assert forall j :: 0 <= j < k ==> clauses[..k][j] == clauses[j];
    }
  }

  lemma BestIsUnique(clauses: seq<Clause>, containing: Option<Version>, k: nat)
    requires IsBest(clauses, containing, k)
    ensures Selected(clauses, containing) == Some(k)
  {
    SelectedIsBest(clauses, containing);
  }

  // ---- What clauses admit ----

  lemma TruncateMonotone(a: Version, b: Version, p: nat)
    requires 1 <= p <= 3 && AtMost(a, b)
    ensures AtMost(Truncate(a, p), Truncate(b, p))
  {
  }

  /** A parsed clause: its numbers carry nothing beyond their precision, and its
      interval is the one its operator and numbers determine. */
  ghost predicate Sound(c: Clause) {
    && 1 <= c.lower.precision <= 3 && Truncate(c.lower.version, c.lower.precision) == c.lower.version
    && (if c.kind == Hyphen then
          c.upper.Some? && 1 <= c.upper.value.precision <= 3 && HyphenClause(c.lower, c.upper.value) == c
        else OperatorClause(c.kind, c.lower) == Ok(c))
  }

  lemma NumberIsTruncated(text: string, offset: nat)
    requires NumberOf(text, offset).Ok?
    ensures var n := NumberOf(text, offset).value;
      Truncate(n.version, n.precision) == n.version
  {
  }

  lemma LowerIsTruncated(text: string, offset: nat)
    requires ClauseOf(text, offset).Ok?
    ensures var n := ClauseOf(text, offset).value.lower;
      1 <= n.precision <= 3 && Truncate(n.version, n.precision) == n.version
  {
    hide NumberOf;
    KindDecides(text, offset);
    var dash := IndexOf(text, '-');
    if dash < |text| {
      HyphenParts(text[..dash], text[dash + 1..], offset);
      NumberIsTruncated(TrimEnd(text[..dash]), offset);
    } else {
      var raw := Operator(text).1;
      NumberIsTruncated(raw, offset + |text| - |raw|);
    }
  }

  lemma ParsedIsSound(text: string, k: nat)
    requires Parse(text).Ok? && k < |Parse(text).value.clauses|
    ensures Sound(Parse(text).value.clauses[k])
  {
    hide ClauseOf, Truncate;
    ClauseAt(text, k);
    var parts := Split(text, ',');
    ClauseShape(Trim(parts[k]), CoreAt(parts, 0, k));
    LowerIsTruncated(Trim(parts[k]), CoreAt(parts, 0, k));
  }

  /** A clause with floor zero admits version zero, except for `<` of zero. */
  lemma ZeroAdmitted(c: Clause)
    requires Sound(c) && c.interval.min == ZERO
    ensures InRange(c.interval, ZERO) <==> !(c.kind == LessThan && c.lower.version == ZERO)
  {
    if c.kind == Hyphen {
      SuccessorAbove(c.upper.value.version, c.upper.value.precision);
    } else {
      forall p | 1 <= p <= 3
        ensures Successor(c.lower.version, p).Some? ==> Less(c.lower.version, Successor(c.lower.version, p).value)
      {
        SuccessorAbove(c.lower.version, p);
      }
    }
  }

  /** A caret, tilde or exact clause of a version cut to a precision admits that
      version; an exact clause must not lose anything by the cut. */
  lemma WrittenAdmits(kind: Kind, v: Version, precision: nat, start: nat, end: nat)
    requires kind in {Caret, Tilde, Exact} && 1 <= precision <= 3
    requires kind == Exact ==> Truncate(v, precision) == v
    ensures var c := OperatorClause(kind, Number(Truncate(v, precision), precision, start, end));
      if precision == 3 && v == ZERO then c.Err?
      else c.Ok? && InRange(c.value.interval, v)
  {
    var w := Truncate(v, precision);
    forall p | 1 <= p <= precision
      ensures Truncate(w, p) == Truncate(v, p)
      ensures Successor(w, p).None? || Less(v, Successor(w, p).value)
    {
      SuccessorBounds(w, p, v);
    }
    if kind == Exact {
      SuccessorBounds(w, 3, v);
    }
  }

  /** The version and precision an edit writes. */
  function Target(c: Clause, v: Version): (Version, nat)
    requires 1 <= c.lower.precision <= 3
  {
    match c.kind
    case LessThan =>
      (if Successor(v, c.lower.precision).Some? then Successor(v, c.lower.precision).value else v, c.lower.precision)
    case Hyphen => (v, if c.upper.Some? then c.upper.value.precision else 1)
    case _ => (v, PrecisionFor(c, v))
  }

  lemma EditWritesTarget(c: Clause, matching: bool, v: Version)
    requires Sound(c)
    ensures 1 <= Target(c, v).1 <= 3
    ensures EditOf(c, matching, v).Rewrite? ==>
      EditOf(c, matching, v) == Rewrite(EditedNumber(c), FormatVersion(Target(c, v).0, Target(c, v).1))
  {
    hide FormatVersion, Successor, OperatorClause, HyphenClause;
  }

  /** An in-place rewrite gives a clause that parses and admits the version, with
      a floor no lower than before. */
  lemma RewriteAdmits(c: Clause, v: Version, start: nat, end: nat)
    requires Sound(c) && AtMost(c.interval.min, v)
    requires EditOf(c, InRange(c.interval, v), v).Rewrite?
    ensures 1 <= Target(c, v).1 <= 3
    ensures var (w, p) := Target(c, v);
      var edited := Rebuilt(c, Number(Truncate(w, p), p, start, end));
      && edited.Ok? && InRange(edited.value.interval, v)
      && AtMost(c.interval.min, edited.value.interval.min) && edited.value.kind == c.kind
  {
    hide FormatVersion;
    var (w, p) := Target(c, v);
    match c.kind
    case Hyphen =>
      SuccessorBounds(Truncate(v, p), p, v);
    case LessThan =>
      SuccessorAbove(v, p);
    case _ =>
      TruncateMonotone(c.lower.version, v, p);
      WrittenAdmits(c.kind, v, p, start, end);
  }

  // ---- Appended arms ----

  function ArmKind(c: Clause): Kind {
    if c.kind in {Tilde, Exact} then c.kind else Caret
  }

  function ArmPrecision(c: Clause, v: Version): nat {
    if c.kind in {Caret, Tilde, Exact} then PrecisionFor(c, v) else 3
  }

  function ArmSign(kind: Kind): string {
    match kind
    case Tilde => "~"
    case Exact => "="
    case _ => ""
  }

  lemma NewArmParts(c: Clause, v: Version)
    requires 1 <= c.lower.precision <= 3
    ensures 1 <= ArmPrecision(c, v) <= 3
    ensures NewArm(c, v) == ArmSign(ArmKind(c)) + FormatVersion(v, ArmPrecision(c, v))
    ensures ArmKind(c) == Exact ==> Truncate(v, ArmPrecision(c, v)) == v
  {
    hide FormatVersion;
    assert forall s: string :: "" + s == s;
  }

  lemma ArmOperator(kind: Kind, r: string)
    requires kind in {Caret, Tilde, Exact} && NumberText(r)
    ensures Operator(ArmSign(kind) + r) == (kind, r)
    ensures IndexOf(ArmSign(kind) + r, '-') == |ArmSign(kind) + r|
  {
    var t := ArmSign(kind) + r;
    assert t[|ArmSign(kind)|..] == r;
    assert t[..|t|] == t && '-' !in t;
    IndexOfAt(t, '-', |t|);
  }

  /** A freshly written arm parses to the clause of its operator. */
  lemma ArmParses(kind: Kind, v: Version, precision: nat, at: nat, r: string)
    requires kind in {Caret, Tilde, Exact} && 1 <= precision <= 3 && r == FormatVersion(v, precision)
    ensures var start := at + |ArmSign(kind)|;
      ClauseOf(ArmSign(kind) + r, at) == OperatorClause(kind, Number(Truncate(v, precision), precision, start, start + |r|))
  {
    hide ClauseOf, OperatorOf, FormatVersion, Operator, OperatorClause, NumberOf, Truncate, IndexOf, ArmSign;
    WrittenIsNumberText(v, precision);
    ArmOperator(kind, r);
    var start := at + |ArmSign(kind)|;
    StripPrefix("", r);
    assert "" + r == r;
    WrittenNumber(r, v, precision, start);
    var t := ArmSign(kind) + r;
    OperatorDecides(t, at, kind, r, Number(Truncate(v, precision), precision, start, start + |r|));
    NoDashDecides(t, at, OperatorOf(t, at));
  }

  lemma {:induction false} OffsetAfterAll(parts: seq<string>, last: string)
    requires |parts| >= 1
    ensures Offset(parts + [last], |parts|) == |Join(parts, ',')| + 1
    decreases |parts|
  {
    assert (parts + [last])[1..] == parts[1..] + [last];
    if |parts| > 1 {
      OffsetAfterAll(parts[1..], last);
    }
  }

  lemma {:induction false} OffsetBefore(parts: seq<string>, last: string, k: nat)
    requires k <= |parts|
    ensures Offset(parts + [last], k) == Offset(parts, k)
    decreases k
  {
    if k > 0 {
      assert (parts + [last])[1..] == parts[1..] + [last];
      OffsetBefore(parts[1..], last, k - 1);
    }
  }

  lemma AppendedText(text: string, arm: string)
    requires ',' !in arm && arm != [] && !IsSpace(arm[0]) && !IsSpace(arm[|arm| - 1])
    ensures Split(text + ", " + arm, ',') == Split(text, ',') + [" " + arm]
    ensures var parts := Split(text, ',') + [" " + arm];
      CoreAt(parts, 0, |parts| - 1) == |text| + 2 && Trim(parts[|parts| - 1]) == arm
  {
    hide Trim, Lead;
    var parts := Split(text, ',');
    var last := " " + arm;
    SplitThenJoin(text, ',');
    JoinAppend(parts, last);
    assert text + [','] + last == text + ", " + arm;
    JoinThenSplit(parts + [last], ',');
    OffsetAfterAll(parts, last);
    assert " " + arm + "" == last;
    TrimAround(" ", arm, "");
  }

  /** Appending an arm that parses appends its clause and touches no other; an arm
      that does not parse spoils the whole text. */
  lemma ArmAppended(text: string, arm: string, c: Result<Clause, ParseError>)
    requires Parse(text).Ok? && ClauseOf(arm, |text| + 2) == c
    requires ',' !in arm && arm != [] && !IsSpace(arm[0]) && !IsSpace(arm[|arm| - 1])
    ensures var appended := text + ", " + arm;
      if c.Ok? then Parse(appended) == Ok(CompatSpec(appended, Parse(text).value.clauses + [c.value]))
      else Parse(appended).Err?
  {
    hide ClauseOf, Trim, Lead, CoreAt, Split;
    var appended := text + ", " + arm;
    var parts := Split(text, ',');
    var more := parts + [" " + arm];
    AppendedText(text, arm);
    ClauseAt(text, 0);
    if c.Ok? {
      var clauses := Parse(text).value.clauses + [c.value];
      forall k | 0 <= k < |more|
        ensures ClauseOf(Trim(more[k]), CoreAt(more, 0, k)) == Ok(clauses[k])
      {
        if k < |parts| {
          ClauseAt(text, k);
          SameCore(parts, " " + arm, k);
        }
      }
      ParsedAll(ClauseOf, more, 0, clauses);
    } else if Parse(appended).Ok? {
      ClauseAt(appended, |more| - 1);
    }
  }

  lemma SameCore(parts: seq<string>, last: string, k: nat)
    requires k < |parts|
    ensures CoreAt(parts + [last], 0, k) == CoreAt(parts, 0, k)
  {
    OffsetBefore(parts, last, k);
  }

  // ---- The edit as a whole ----

  lemma ParsedNumbers(text: string, k: nat)
    requires Parse(text).Ok? && k < |Parse(text).value.clauses|
    ensures var c := Parse(text).value.clauses[k];
      InText(c.lower, text) && (c.upper.Some? ==> InText(c.upper.value, text))
  {
    ClauseAt(text, k);
    hide ClauseOf, Trim, Lead, OperatorClause, HyphenClause, Parse;
    var parts := Split(text, ',');
    var c := Parse(text).value.clauses[k];
    ClauseShape(Trim(parts[k]), CoreAt(parts, 0, k));
    SplitThenJoin(text, ',');
    OffsetBound(parts, k);
    CoreInside(parts[k]);
  }

  lemma CoreInside(part: string)
    ensures Lead(part) + |Trim(part)| <= |part|
  {
  }

  lemma ParsedIsWellFormed(text: string)
    requires Parse(text).Ok?
    ensures WellFormed(Parse(text).value) && Parse(text).value.clauses != []
    ensures Parse(text).value.text == text
  {
    ClauseAt(text, 0);
    hide Parse, InText;
    forall k | 0 <= k < |Parse(text).value.clauses|
      ensures var c := Parse(text).value.clauses[k];
        InText(c.lower, text) && (c.upper.Some? ==> InText(c.upper.value, text))
    {
      ParsedNumbers(text, k);
    }
  }

  lemma InPlaceEdit(text: string, k: nat, v: Version) returns (after: seq<Clause>)
    requires Parse(text).Ok? && k < |Parse(text).value.clauses|
    requires var c := Parse(text).value.clauses[k];
      1 <= c.lower.precision <= 3 && AtMost(c.interval.min, v) && EditOf(c, InRange(c.interval, v), v).Rewrite?
    ensures k < |after| && SameElsewhere(Parse(text).value.clauses, after, k)
    ensures var before := Parse(text).value.clauses[k];
      && InRange(after[k].interval, v) && AtMost(before.interval.min, after[k].interval.min)
      && after[k].kind == before.kind && 1 <= Target(before, v).1 <= 3
      && var (w, p) := Target(before, v);
      && var Rewrite(n, r) := EditOf(before, InRange(before.interval, v), v);
      && r == FormatVersion(w, p)
      && Rebuilt(before, Number(Truncate(w, p), p, n.start, n.start + |r|)) == Ok(after[k])
      && n == EditedNumber(before) && n.start <= n.end <= |text|
      && Parse(Replaced(text, n.start, n.end, r)) == Ok(CompatSpec(Replaced(text, n.start, n.end, r), after))
  {
    hide Parse, FormatVersion, Rebuilt, Truncate, InRange, AtMost, Sound, SameElsewhere, Replaced;
    var before := Parse(text).value.clauses[k];
    ParsedIsSound(text, k);
    EditWritesTarget(before, InRange(before.interval, v), v);
    var (w, p) := Target(before, v);
    var r := FormatVersion(w, p);
    var start := EditedNumber(before).start;
    RewriteAdmits(before, v, start, start + |r|);
    after := NumberReplaced(text, k, w, p, r, Rebuilt(before, Number(Truncate(w, p), p, start, start + |r|)).value);
  }

  lemma ArmEdit(text: string, k: nat, v: Version) returns (c: Result<Clause, ParseError>)
    requires Parse(text).Ok? && k < |Parse(text).value.clauses|
    ensures 1 <= Parse(text).value.clauses[k].lower.precision <= 3
    ensures var before := Parse(text).value.clauses[k];
      && 1 <= ArmPrecision(before, v) <= 3
      && var p := ArmPrecision(before, v);
      && var start := |text| + 2 + |ArmSign(ArmKind(before))|;
      && c == OperatorClause(ArmKind(before), Number(Truncate(v, p), p, start, start + |FormatVersion(v, p)|))
      && (if p == 3 && v == ZERO then c.Err? else c.Ok? && InRange(c.value.interval, v))
      && var appended := text + ", " + NewArm(before, v);
      if c.Ok? then Parse(appended) == Ok(CompatSpec(appended, Parse(text).value.clauses + [c.value]))
      else Parse(appended).Err?
  {
    hide Parse, FormatVersion, ClauseOf, NewArm, OperatorClause;
    var before := Parse(text).value.clauses[k];
    ParsedIsSound(text, k);
    NewArmParts(before, v);
    var p := ArmPrecision(before, v);
    var r := FormatVersion(v, p);
    var kind := ArmKind(before);
    var start := |text| + 2 + |ArmSign(kind)|;
    c := OperatorClause(kind, Number(Truncate(v, p), p, start, start + |r|));
    WrittenAdmits(kind, v, p, start, start + |r|);
    ArmParses(kind, v, p, |text| + 2, r);
    WrittenIsNumberText(v, p);
    ArmAppended(text, ArmSign(kind) + r, c);
  }

  /** Where the edit happens: the best clause that admits the version, else the
      best of all of them. */
  lemma ChosenClause(clauses: seq<Clause>, v: Version) returns (k: nat)
    requires clauses != []
    ensures k < |clauses|
    ensures Selected(clauses, Some(v)).Some? <==> Contains(clauses, v)
    ensures InRange(clauses[k].interval, v) <==> Contains(clauses, v)
    ensures Some(k) == if Contains(clauses, v) then Selected(clauses, Some(v)) else Selected(clauses, None)
    ensures IsBest(clauses, if Contains(clauses, v) then Some(v) else None, k)
  {
    SelectedIsBest(clauses, Some(v));
    SelectedIsBest(clauses, None);
    k := if Contains(clauses, v) then Selected(clauses, Some(v)).value else Selected(clauses, None).value;
    if Selected(clauses, Some(v)).None? {
      assert forall j :: 0 <= j < |clauses| ==> !Kept(clauses[j], Some(v));
    }
  }

  /** When an edit declines: nothing admits the version, and either some clause
      starts above it, or the only clause is `<` and no later bound exists. */
  lemma EditDeclines(text: string, v: Version)
    requires Parse(text).Ok?
    ensures WellFormed(Parse(text).value)
    ensures var clauses := Parse(text).value.clauses;
      WithVersion(Parse(text).value, v).None? <==>
        && !Contains(clauses, v)
        && ((exists j :: 0 <= j < |clauses| && Less(v, clauses[j].interval.min))
            || (|clauses| == 1 && clauses[0].kind == LessThan
                && Successor(v, clauses[0].lower.precision).None?))
  {
    hide Parse, Successor, FormatVersion, NewArm;
    ParsedIsWellFormed(text);
    var clauses := Parse(text).value.clauses;
    var k := ChosenClause(clauses, v);
    ParsedIsSound(text, k);
    if Contains(clauses, v) {
      assert AtMost(clauses[k].interval.min, v);
    } else {
      assert Kept(clauses[k], None);
      if j :| 0 <= j < |clauses| && Less(v, clauses[j].interval.min) {
        assert Kept(clauses[j], None);
        OrderIsTotal(v, clauses[j].interval.min, clauses[k].interval.min);
      }
    }
  }

  /** The single situation in which an edit spoils the specification. */
  ghost predicate ZeroOutsideUnion(clauses: seq<Clause>, v: Version) {
    v == ZERO && |clauses| > 1 && !Contains(clauses, v)
  }

  ghost predicate ReadsBack(text: string, v: Version) {
    Parse(text).Ok? && Contains(Parse(text).value.clauses, v)
  }

  lemma AppendsUnlessZero(text: string, k: nat, v: Version)
    requires Parse(text).Ok? && k < |Parse(text).value.clauses|
    requires var c := Parse(text).value.clauses[k];
      AtMost(c.interval.min, v) && !InRange(c.interval, v)
    ensures var before := Parse(text).value.clauses[k];
      ReadsBack(text + ", " + NewArm(before, v), v) <==> v != ZERO
  {
    hide Parse, NewArm, FormatVersion, OperatorClause;
    ParsedIsSound(text, k);
    var clauses := Parse(text).value.clauses;
    var before := clauses[k];
    var c := ArmEdit(text, k, v);
    if c.Ok? {
      var after := clauses + [c.value];
      assert after[|clauses|] == c.value;
      assert Contains(after, v);
    }
    if v == ZERO {
      OrderIsTotal(before.interval.min, ZERO, ZERO);
      ZeroAdmitted(before);
    }
  }

  lemma UnchangedAdmits(c: Clause, v: Version)
    requires Sound(c) && AtMost(c.interval.min, v) && EditOf(c, InRange(c.interval, v), v) == Unchanged
    ensures InRange(c.interval, v)
  {
    hide FormatVersion;
  }

  /** Every edit reads back and admits the version it was made for, with one
      exception: version zero, outside every arm of a union. */
  lemma EditReadsBack(text: string, v: Version)
    requires Parse(text).Ok?
    ensures WellFormed(Parse(text).value)
    ensures var edited := WithVersion(Parse(text).value, v);
      edited.Some? ==>
        (ReadsBack(edited.value, v) <==> !ZeroOutsideUnion(Parse(text).value.clauses, v))
  {
    hide Parse, FormatVersion, NewArm, Replaced, InRange, SameElsewhere, Rebuilt, Target;
    ParsedIsWellFormed(text);
    var clauses := Parse(text).value.clauses;
    var k := ChosenClause(clauses, v);
    var c := clauses[k];
    ParsedNumbers(text, k);
    var edited := WithVersion(Parse(text).value, v);
    if edited.Some? {
      assert AtMost(c.interval.min, v);
      if !Contains(clauses, v) && |clauses| > 1 {
        AppendsUnlessZero(text, k, v);
      } else if EditOf(c, InRange(c.interval, v), v).Rewrite? {
        var after := InPlaceEdit(text, k, v);
        assert Contains(after, v);
      } else {
        ParsedIsSound(text, k);
        UnchangedAdmits(c, v);
      }
    }
  }

  lemma ReadLessThanZero(at: nat)
    ensures ClauseOf("<0", at)
         == Ok(Clause(LessThan, Number(ZERO, 1, at + 1, at + 2), None, VersionRange(ZERO, Some(ZERO))))
  {
    hide ClauseOf, NumberOf, OperatorOf;
    var text := "<0";
    assert FormatVersion(ZERO, 1) == ToDecimal(0) == "0";
    assert text[1..] == "0" && text[..2] == text;
    assert TrimStart("0") == "0" && Operator(text) == (LessThan, "0");
    IndexOfAt(text, '-', 2);
    WrittenNumber("0", ZERO, 1, at + 1);
    OperatorDecides(text, at, LessThan, "0", Number(ZERO, 1, at + 1, at + 2));
    NoDashDecides(text, at, OperatorOf(text, at));
  }

  lemma ParseLessThanZero(one: string)
    requires one == "<0"
    ensures ClauseOf(one, 0).Ok? && Parse(one) == Ok(CompatSpec(one, [ClauseOf(one, 0).value]))
  {
    hide ClauseOf;
    ReadLessThanZero(0);
    assert one[..2] == one;
    IndexOfAt(one, ',', 2);
    assert TrimStart(one) == one && TrimEnd(one) == one;
    ParsedAll(ClauseOf, [one], 0, [ClauseOf(one, 0).value]);
  }

  /** The exception is real: this union parses, admits nothing, and its edit for
      version zero does not read back. */
  lemma ZeroUnionFails()
    ensures Parse("<0, <0").Ok? && WellFormed(Parse("<0, <0").value)
    ensures var edited := WithVersion(Parse("<0, <0").value, ZERO);
      edited.Some? && !ReadsBack(edited.value, ZERO)
  {
    hide ClauseOf, FormatVersion, NewArm, ReadsBack, Parse, WithVersion;
    var one := "<0";
    ReadLessThanZero(0);
    ReadLessThanZero(4);
    ParseLessThanZero(one);
    ArmAppended(one, one, ClauseOf(one, 4));
    assert one + ", " + one == "<0, <0";
    ParsedIsWellFormed("<0, <0");
    EditDeclines("<0, <0", ZERO);
    EditReadsBack("<0, <0", ZERO);
  }

  /** Whether an edit appends an arm rather than rewriting one. */
  ghost predicate Appends(clauses: seq<Clause>, v: Version) {
    !Contains(clauses, v) && |clauses| > 1
  }

  /** An edit touches one clause at most. Outside a union it keeps the whole old
      text and adds one clause behind it; otherwise every clause but one of the
      edited text is the same as before, and that one keeps its operator. */
  lemma EditTouchesOneClause(text: string, v: Version)
    requires Parse(text).Ok?
    ensures WellFormed(Parse(text).value)
    ensures var edited := WithVersion(Parse(text).value, v);
      edited.Some? && Parse(edited.value).Ok? ==>
        var before := Parse(text).value.clauses;
        var after := Parse(edited.value).value.clauses;
        if Appends(before, v) then
          |after| == |before| + 1 && after[..|before|] == before && text <= edited.value
        else
          exists k :: 0 <= k < |before| && SameElsewhere(before, after, k) && before[k].kind == after[k].kind
  {
    hide Parse, FormatVersion, NewArm, Replaced, InRange, SameElsewhere, Rebuilt, Target, ReadsBack;
    ParsedIsWellFormed(text);
    var clauses := Parse(text).value.clauses;
    var k := ChosenClause(clauses, v);
    var c := clauses[k];
    ParsedNumbers(text, k);
    var edited := WithVersion(Parse(text).value, v);
    if edited.Some? {
      if Appends(clauses, v) {
        var arm := ArmEdit(text, k, v);
        if arm.Ok? {
          assert (clauses + [arm.value])[..|clauses|] == clauses;
        }
      } else if EditOf(c, InRange(c.interval, v), v).Rewrite? {
        var after := InPlaceEdit(text, k, v);
      } else {
        SameAsItself(clauses, k);
      }
    }
  }

  lemma SameAsItself(clauses: seq<Clause>, k: nat)
    ensures SameElsewhere(clauses, clauses, k)
  {
  }

  // ---- Editing twice ----

  lemma ReplacedTwice(text: string, start: nat, end: nat, r: string)
    requires start <= end <= |text|
    ensures var once := Replaced(text, start, end, r);
      start + |r| <= |once| && Replaced(once, start, start + |r|, r) == once
  {
  }

  /** A rewritten clause stays the best of those that admit the version. */
  lemma StaysBest(before: seq<Clause>, after: seq<Clause>, k: nat, v: Version)
    requires k < |before| && SameElsewhere(before, after, k)
    requires InRange(after[k].interval, v) && AtMost(before[k].interval.min, after[k].interval.min)
    requires if Contains(before, v) then IsBest(before, Some(v), k) else |before| == 1
    ensures Selected(after, Some(v)) == Some(k)
  {
    forall j | 0 <= j < |after| && Kept(after[j], Some(v))
      ensures AtMost(after[j].interval.min, after[k].interval.min)
      ensures k < j ==> Less(after[j].interval.min, after[k].interval.min)
    {
      if j != k {
        assert SameClause(before[j], after[j]);
        assert Kept(before[j], Some(v));
      }
    }
    BestIsUnique(after, Some(v), k);
  }

  /** Editing an already rewritten clause again writes the same number over
      itself. */
  lemma RewriteAgain(before: Clause, after: Clause, v: Version)
    requires Sound(before) && EditOf(before, InRange(before.interval, v), v).Rewrite?
    requires InRange(after.interval, v) && 1 <= after.lower.precision <= 3
    requires 1 <= Target(before, v).1 <= 3
    requires var (w, p) := Target(before, v);
      var n := EditedNumber(before);
      Rebuilt(before, Number(Truncate(w, p), p, n.start, n.start + |FormatVersion(w, p)|)) == Ok(after)
    ensures var Rewrite(n, r) := EditOf(before, InRange(before.interval, v), v);
      match EditOf(after, true, v)
      case Unchanged => true
      case Impossible => false
      case Rewrite(m, s) => m.start == n.start && m.end == n.start + |r| && s == r
  {
    hide FormatVersion, Successor, Truncate, InRange;
    EditWritesTarget(before, InRange(before.interval, v), v);
  }

  lemma TextOfEdit(spec: CompatSpec, v: Version, k: nat)
    requires WellFormed(spec) && Selected(spec.clauses, Some(v)) == Some(k)
    requires k < |spec.clauses| && AtMost(spec.clauses[k].interval.min, v)
    requires InText(spec.clauses[k].lower, spec.text)
    ensures match EditOf(spec.clauses[k], true, v)
      case Unchanged => WithVersion(spec, v) == Some(spec.text)
      case Impossible => true
      case Rewrite(n, r) =>
        n.start <= n.end <= |spec.text| && WithVersion(spec, v) == Some(Replaced(spec.text, n.start, n.end, r))
  {
    hide FormatVersion, Successor, Replaced, InRange, NewArm;
  }

  lemma InPlaceTwice(text: string, k: nat, v: Version)
    requires Parse(text).Ok? && k < |Parse(text).value.clauses|
    requires var clauses := Parse(text).value.clauses;
      && 1 <= clauses[k].lower.precision <= 3 && AtMost(clauses[k].interval.min, v)
      && EditOf(clauses[k], InRange(clauses[k].interval, v), v).Rewrite?
      && (if Contains(clauses, v) then IsBest(clauses, Some(v), k) else |clauses| == 1)
    ensures var Rewrite(n, r) := EditOf(Parse(text).value.clauses[k], InRange(Parse(text).value.clauses[k].interval, v), v);
      && n.start <= n.end <= |text|
      && var once := Replaced(text, n.start, n.end, r);
      Parse(once).Ok? && WellFormed(Parse(once).value) && WithVersion(Parse(once).value, v) == Some(once)
  {
    hide Parse, FormatVersion, NewArm, Replaced, SameElsewhere, Rebuilt, Target, Truncate, WithVersion, EditOf, WellFormed, InText;
    var clauses := Parse(text).value.clauses;
    var after := InPlaceEdit(text, k, v);
    var Rewrite(n, r) := EditOf(clauses[k], InRange(clauses[k].interval, v), v);
    var once := Replaced(text, n.start, n.end, r);
    ParsedIsWellFormed(once);
    ParsedNumbers(once, k);
    ParsedIsSound(text, k);
    ParsedIsSound(once, k);
    StaysBest(clauses, after, k, v);
    RewriteAgain(clauses[k], after[k], v);
    TextOfEdit(Parse(once).value, v, k);
    ReplacedTwice(text, n.start, n.end, r);
  }

  lemma ArmWritesAgain(before: Clause, v: Version, start: nat, arm: Clause)
    requires 1 <= before.lower.precision <= 3 && 1 <= ArmPrecision(before, v) <= 3
    requires var p := ArmPrecision(before, v);
      OperatorClause(ArmKind(before), Number(Truncate(v, p), p, start, start + |FormatVersion(v, p)|)) == Ok(arm)
    ensures arm.lower.precision == ArmPrecision(before, v) && arm.interval.min == Truncate(v, ArmPrecision(before, v))
    ensures var r := FormatVersion(v, ArmPrecision(before, v));
      EditOf(arm, true, v) == Rewrite(Number(arm.lower.version, arm.lower.precision, start, start + |r|), r)
  {
    hide FormatVersion, Truncate;
  }

  lemma AppendedIsBest(before: seq<Clause>, arm: Clause, v: Version)
    requires !Contains(before, v) && InRange(arm.interval, v)
    ensures Selected(before + [arm], Some(v)) == Some(|before|)
  {
    var after := before + [arm];
    assert forall j :: 0 <= j < |before| ==> after[j] == before[j];
    OrderIsTotal(arm.interval.min, arm.interval.min, arm.interval.min);
    BestIsUnique(after, Some(v), |before|);
  }

  lemma ReplacedEnd(front: string, r: string)
    ensures |front| <= |front + r| && Replaced(front + r, |front|, |front + r|, r) == front + r
  {
  }

  lemma AppendTwice(text: string, k: nat, v: Version)
    requires Parse(text).Ok? && k < |Parse(text).value.clauses| && !Contains(Parse(text).value.clauses, v)
    ensures var once := text + ", " + NewArm(Parse(text).value.clauses[k], v);
      Parse(once).Ok? ==> WellFormed(Parse(once).value) && WithVersion(Parse(once).value, v) == Some(once)
  {
    hide Parse, FormatVersion, NewArm, Replaced, Truncate, WithVersion, EditOf, WellFormed, InText, OperatorClause, InRange;
    var clauses := Parse(text).value.clauses;
    var before := clauses[k];
    var once := text + ", " + NewArm(before, v);
    ParsedIsSound(text, k);
    var arm := ArmEdit(text, k, v);
    if arm.Ok? {
      NewArmParts(before, v);
      var r := FormatVersion(v, ArmPrecision(before, v));
      var front := text + ", " + ArmSign(ArmKind(before));
      assert once == front + r;
      ArmWritesAgain(before, v, |front|, arm.value);
      AppendedIsBest(clauses, arm.value, v);
      ParsedIsWellFormed(once);
      ParsedNumbers(once, |clauses|);
      TextOfEdit(Parse(once).value, v, |clauses|);
      ReplacedEnd(front, r);
    }
  }

  /** Editing is idempotent: an edited specification that parses is its own edit
      for the same version. */
  lemma EditIsIdempotent(text: string, v: Version)
    requires Parse(text).Ok?
    ensures WellFormed(Parse(text).value)
    ensures var edited := WithVersion(Parse(text).value, v);
      edited.Some? && Parse(edited.value).Ok? ==>
        WellFormed(Parse(edited.value).value) && WithVersion(Parse(edited.value).value, v) == edited
  {
    hide Parse, FormatVersion, NewArm, Replaced, InRange, WellFormed;
    ParsedIsWellFormed(text);
    var clauses := Parse(text).value.clauses;
    var k := ChosenClause(clauses, v);
    var c := clauses[k];
    ParsedNumbers(text, k);
    ParsedIsSound(text, k);
    var edited := WithVersion(Parse(text).value, v);
    if edited.Some? {
      if Appends(clauses, v) {
        AppendTwice(text, k, v);
      } else if EditOf(c, InRange(c.interval, v), v).Rewrite? {
        InPlaceTwice(text, k, v);
      }
    }
  }

  /** An edit keeps the precision of a clause; only an exact clause, which admits a
      single version, is written as long as that version needs. */
  lemma PrecisionIsLeast(clause: Clause, v: Version)
    requires 1 <= clause.lower.precision <= 3
    ensures var p := PrecisionFor(clause, v);
      && clause.lower.precision <= p <= 3
      && (clause.kind != Exact ==> p == clause.lower.precision)
      && (clause.kind == Exact ==> Truncate(v, p) == v && (p > clause.lower.precision ==> Truncate(v, p - 1) != v))
  {
  }

  // ---- What the operators mean ----

  /** The versions each operator admits, as the version specifier section of the
      Pkg manual describes them: caret keeps everything up to the first nonzero
      component (or what was written, when all of it is zero), tilde keeps major and
      minor, equality is exact. */
  lemma OperatorAdmits(kind: Kind, v: Version, precision: nat, w: Version)
    requires kind != Hyphen && 1 <= precision <= 3
    ensures InRange(OperatorInterval(kind, v, precision), w) <==>
      match kind
      case Caret =>
        && AtMost(v, w)
        && (if v.major != 0 then w.major == v.major
            else if v.minor != 0 then w.major == 0 && w.minor == v.minor
            else w.major == 0 && (precision >= 2 ==> w.minor == 0) && (precision == 3 ==> w.patch == v.patch))
      case Tilde => AtMost(v, w) && w.major == v.major && (precision == 1 || w.minor == v.minor)
      case Exact => w == v
      case AtLeast => AtMost(v, w)
      case LessThan => Less(w, v)
  {
    match kind
    case Caret =>
      SuccessorBounds(v, CaretWidth(v, precision), w);
    case Tilde =>
      SuccessorBounds(v, if precision <= 2 then precision else 2, w);
    case Exact =>
      SuccessorBounds(v, 3, w);
    case _ =>
  }

  /** A hyphen range is inclusive at both ends, up to the upper bound's precision. */
  lemma HyphenAdmits(lower: Number, upper: Number, w: Version)
    requires 1 <= upper.precision <= 3
    ensures InRange(HyphenClause(lower, upper).interval, w) <==>
      AtMost(lower.version, w)
      && AtMost(Truncate(w, upper.precision), Truncate(upper.version, upper.precision))
  {
    SuccessorBounds(upper.version, upper.precision, w);
  }

  lemma {:induction false} EnvelopeFloor(clauses: seq<Clause>)
    requires clauses != []
    ensures forall j :: 0 <= j < |clauses| ==> AtMost(Envelope(clauses).min, clauses[j].interval.min)
    ensures exists j :: 0 <= j < |clauses| && clauses[j].interval.min == Envelope(clauses).min
    decreases |clauses|
  {
    if |clauses| == 1 {
      assert clauses[0].interval == Envelope(clauses);
    } else {
      var front, last := clauses[..|clauses| - 1], clauses[|clauses| - 1];
      EnvelopeFloor(front);
      assert forall j :: 0 <= j < |clauses| ==> clauses[j] == if j < |front| then front[j] else last;
      var j :| 0 <= j < |front| && front[j].interval.min == Envelope(front).min;
      assert clauses[j].interval.min == Envelope(front).min;
    }
  }

  lemma {:induction false} EnvelopeCeiling(clauses: seq<Clause>)
    requires clauses != []
    ensures Envelope(clauses).max.None? <==> exists j :: 0 <= j < |clauses| && clauses[j].interval.max.None?
    ensures Envelope(clauses).max.Some? ==>
      forall j :: 0 <= j < |clauses| ==> AtMost(clauses[j].interval.max.value, Envelope(clauses).max.value)
    ensures exists j :: 0 <= j < |clauses| && clauses[j].interval.max == Envelope(clauses).max
    decreases |clauses|
  {
    if |clauses| == 1 {
      assert clauses[0].interval == Envelope(clauses);
    } else {
      var front, last := clauses[..|clauses| - 1], clauses[|clauses| - 1];
      EnvelopeCeiling(front);
      assert forall j :: 0 <= j < |clauses| ==> clauses[j] == if j < |front| then front[j] else last;
      var j :| 0 <= j < |front| && front[j].interval.max == Envelope(front).max;
      assert clauses[j].interval.max == Envelope(front).max;
    }
  }

  /** The envelope covers the union; its floor is the floor of a clause; its
      ceiling is missing exactly when a clause has none, and otherwise is the
      highest of theirs. */
  lemma EnvelopeIsTight(clauses: seq<Clause>)
    requires clauses != []
    ensures var e := Envelope(clauses);
      && (forall v :: Contains(clauses, v) ==> InRange(e, v))
      && (forall j :: 0 <= j < |clauses| ==> AtMost(e.min, clauses[j].interval.min))
      && (exists j :: 0 <= j < |clauses| && clauses[j].interval.min == e.min)
      && (e.max.None? <==> exists j :: 0 <= j < |clauses| && clauses[j].interval.max.None?)
      && (e.max.Some? ==>
            && (forall j :: 0 <= j < |clauses| ==> AtMost(clauses[j].interval.max.value, e.max.value))
            && exists j :: 0 <= j < |clauses| && clauses[j].interval.max == e.max)
  {
    EnvelopeFloor(clauses);
    EnvelopeCeiling(clauses);
    hide Envelope;
    forall v | Contains(clauses, v)
      ensures InRange(Envelope(clauses), v)
    {
      var j :| 0 <= j < |clauses| && InRange(clauses[j].interval, v);
      assert AtMost(Envelope(clauses).min, clauses[j].interval.min);
    }
  }
}
