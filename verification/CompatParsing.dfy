/** How a specification text and its list of clauses move together: rewriting the
    number of one clause, or appending one clause, changes the parsed union in
    exactly that place. */
module CompatParsing {
  import opened Wrappers
  import opened Sequences
  import opened Text
  import opened Versions
  import opened Compat
  import opened CompatClauses

  // ---- Lists of parsed parts ----

  /** Where the trimmed core of part `k` stands. */
  function CoreAt(parts: seq<string>, offset: nat, k: nat): nat
    requires k < |parts|
  {
    offset + Offset(parts, k) + Lead(parts[k])
  }

  lemma {:induction false} ParsedAt<T>(parse: Parser<T>, parts: seq<string>, offset: nat, k: nat)
    requires ParseAll(parse, parts, offset).Ok? && k < |parts|
    ensures var items := ParseAll(parse, parts, offset).value;
      |items| == |parts| && parse(Trim(parts[k]), CoreAt(parts, offset, k)) == Ok(items[k])
    decreases |parts|
  {
    hide Trim, Lead;
    var rest := parts[1..];
    var next := offset + |parts[0]| + 1;
    assert ParseAll(parse, rest, next).Ok?;
    if k > 0 {
      ParsedAt(parse, rest, next, k - 1);
      assert CoreAt(rest, next, k - 1) == CoreAt(parts, offset, k);
    } else if |rest| > 0 {
      ParsedAt(parse, rest, next, 0);
    }
  }

  lemma {:induction false} ParsedAll<T>(parse: Parser<T>, parts: seq<string>, offset: nat, items: seq<T>)
    requires |items| == |parts|
    requires forall k :: 0 <= k < |parts| ==> parse(Trim(parts[k]), CoreAt(parts, offset, k)) == Ok(items[k])
    ensures ParseAll(parse, parts, offset) == Ok(items)
    decreases |parts|
  {
    hide Trim, Lead;
    if |parts| > 0 {
      var rest := parts[1..];
      var next := offset + |parts[0]| + 1;
      assert parse(Trim(parts[0]), CoreAt(parts, offset, 0)) == Ok(items[0]);
      forall k | 0 <= k < |rest|
        ensures parse(Trim(rest[k]), CoreAt(rest, next, k)) == Ok(items[1..][k])
      {
        assert parse(Trim(parts[k + 1]), CoreAt(parts, offset, k + 1)) == Ok(items[k + 1]);
        assert CoreAt(rest, next, k) == CoreAt(parts, offset, k + 1);
      }
      ParsedAll(parse, rest, next, items[1..]);
      assert items == [items[0]] + items[1..];
    }
  }

  lemma {:induction false} OffsetOfPrefix(parts: seq<string>, others: seq<string>, k: nat)
    requires k <= |parts| && k <= |others| && parts[..k] == others[..k]
    ensures Offset(parts, k) == Offset(others, k)
    decreases k
  {
    if k > 0 {
      assert parts[0] == parts[..k][0] == others[..k][0] == others[0];
      assert parts[1..][..k - 1] == parts[..k][1..] && others[1..][..k - 1] == others[..k][1..];
      OffsetOfPrefix(parts[1..], others[1..], k - 1);
    }
  }

  /** The clause of part `k` of a text that parses. */
  lemma ClauseAt(text: string, k: nat)
    requires Parse(text).Ok?
    ensures var parts := Split(text, ',');
      var clauses := Parse(text).value.clauses;
      && Parse(text).value.text == text
      && |clauses| == |parts|
      && (k < |parts| ==> ClauseOf(Trim(parts[k]), CoreAt(parts, 0, k)) == Ok(clauses[k]))
  {
    hide ClauseOf, CoreAt;
    var parts := Split(text, ',');
    ParsedAt(ClauseOf, parts, 0, 0);
    if k < |parts| {
      ParsedAt(ClauseOf, parts, 0, k);
    }
  }

  // ---- Rewriting one part ----

  /** Every clause but the one at `k` is the same, wherever it now stands. */
  ghost predicate SameElsewhere(before: seq<Clause>, after: seq<Clause>, k: nat) {
    && |after| == |before|
    && forall j :: 0 <= j < |before| && j != k ==> SameClause(before[j], after[j])
  }

  lemma ClauseSomewhere(text: string, here: nat, there: nat, c: Clause) returns (moved: Clause)
    requires ClauseOf(text, here) == Ok(c)
    ensures ClauseOf(text, there) == Ok(moved) && SameClause(c, moved)
  {
    OffsetIrrelevant(text, here, there);
    hide ClauseOf;
    moved := ClauseOf(text, there).value;
  }

  /** Replacing one part by another that parses changes the clauses only there. */
  lemma PartReplaced(text: string, k: nat, part: string, c: Clause) returns (clauses: seq<Clause>)
    requires Parse(text).Ok? && k < |Split(text, ',')| && ',' !in part
    requires ClauseOf(Trim(part), Offset(Split(text, ','), k) + Lead(part)) == Ok(c)
    ensures var edited := Join(Split(text, ',')[k := part], ',');
      Parse(edited) == Ok(CompatSpec(edited, clauses))
    ensures k < |clauses| && clauses[k] == c && SameElsewhere(Parse(text).value.clauses, clauses, k)
  {
    hide ClauseOf, SameClause, Trim, Lead, CoreAt;
    var parts := Split(text, ',');
    var before := Parse(text).value.clauses;
    ClauseAt(text, k);
    var others := parts[k := part];
    SplitThenJoin(text, ',');
    JoinThenSplit(others, ',');
    clauses := MovedClauses(text, k, part, c, |parts|);
    ParsedAll(ClauseOf, others, 0, clauses);
  }

  lemma {:induction false} MovedClauses(text: string, k: nat, part: string, c: Clause, n: nat) returns (clauses: seq<Clause>)
    requires Parse(text).Ok? && k < |Split(text, ',')| && n <= |Split(text, ',')|
    requires |Parse(text).value.clauses| == |Split(text, ',')|
    requires ClauseOf(Trim(part), Offset(Split(text, ','), k) + Lead(part)) == Ok(c)
    ensures |clauses| == n
    ensures forall j :: 0 <= j < n ==>
      var others := Split(text, ',')[k := part];
      && ClauseOf(Trim(others[j]), CoreAt(others, 0, j)) == Ok(clauses[j])
      && (if j == k then clauses[j] == c else SameClause(Parse(text).value.clauses[j], clauses[j]))
    decreases n
  {
    hide ClauseOf, SameClause, Trim, Lead;
    if n == 0 {
      clauses := [];
    } else {
      var parts := Split(text, ',');
      var others := parts[k := part];
      var j := n - 1;
      var rest := MovedClauses(text, k, part, c, j);
      if j == k {
        OffsetOfPrefix(parts, others, k);
        clauses := rest + [c];
      } else {
        ClauseAt(text, j);
        var moved := ClauseSomewhere(Trim(parts[j]), CoreAt(parts, 0, j), CoreAt(others, 0, j), Parse(text).value.clauses[j]);
        clauses := rest + [moved];
      }
    }
  }

  // ---- Rewriting one number ----

  /** The number of a clause that edits replace: it ends the clause's text. */
  function EditedNumber(c: Clause): Number {
    if c.kind == Hyphen && c.upper.Some? then c.upper.value else c.lower
  }

  /** The clause with that number replaced. */
  function Rebuilt(c: Clause, n: Number): Result<Clause, ParseError>
    requires 1 <= n.precision <= 3
  {
    if c.kind == Hyphen then Ok(HyphenClause(c.lower, n)) else OperatorClause(c.kind, n)
  }

  lemma OperatorFront(text: string, there: nat, c: Clause, v: Version, precision: nat, r: string)
    returns (front: string, digits: string)
    requires 1 <= precision <= 3 && r == FormatVersion(v, precision)
    requires ClauseOf(text, there) == Ok(c) && c.kind != Hyphen
    ensures text == front + digits && c.lower.start == there + |front|
    ensures ClauseOf(front + r, there)
         == OperatorClause(c.kind, Number(Truncate(v, precision), precision, there + |front|, there + |front| + |r|))
  {
    hide ClauseOf, FormatVersion, Operator, StripV, OperatorClause;
    OperatorEdited(text, there, there, v, precision);
    OperatorSuffix(text);
    front, digits := text[..HeadLength(text)], StripV(Operator(text).1);
  }

  /** One clause's text is a front, which an edit keeps, and the digits of the
      edited number. */
  lemma ClauseEdited(text: string, there: nat, c: Clause, v: Version, precision: nat, r: string)
    returns (front: string, digits: string)
    requires 1 <= precision <= 3 && r == FormatVersion(v, precision)
    requires ClauseOf(text, there) == Ok(c)
    ensures text == front + digits
    ensures EditedNumber(c).start == there + |front| && EditedNumber(c).end == there + |text|
    ensures ClauseOf(front + r, there)
         == Rebuilt(c, Number(Truncate(v, precision), precision, there + |front|, there + |front| + |r|))
  {
    hide ClauseOf, FormatVersion, OperatorClause, HyphenClause;
    ClauseShape(text, there);
    if c.kind == Hyphen {
      front, digits := HyphenEdited(text, there, c, v, precision, r);
    } else {
      front, digits := OperatorFront(text, there, c, v, precision, r);
    }
  }

  /** Replacing the end of a part's core keeps the blanks around it. */
  lemma CoreReplaced(part: string, front: string, digits: string, r: string)
    requires Trim(part) == front + digits && digits != [] && NumberText(r)
    ensures Lead(part) + |front| <= Lead(part) + |Trim(part)| <= |part|
    ensures var edited := Replaced(part, Lead(part) + |front|, Lead(part) + |Trim(part)|, r);
      && Trim(edited) == front + r && Lead(edited) == Lead(part)
      && (',' !in part ==> ',' !in edited)
  {
    hide Trim, Lead;
    TrimParts(part);
    var lead, trail := part[..Lead(part)], part[Lead(part) + |Trim(part)|..];
    var edited := Replaced(part, Lead(part) + |front|, Lead(part) + |Trim(part)|, r);
    assert part == lead + (front + digits) + trail;
    assert edited == lead + (front + r) + trail by {
      assert part[..Lead(part) + |front|] == lead + front;
    }
    assert !IsSpace((front + r)[0]) by {
      if front != [] {
        assert (front + r)[0] == Trim(part)[0];
      }
    }
    TrimAround(lead, front + r, trail);
  }

  lemma EditedPart(text: string, k: nat, v: Version, precision: nat, r: string, c: Clause)
    returns (front: string, digits: string)
    requires Parse(text).Ok? && k < |Parse(text).value.clauses|
    requires 1 <= precision <= 3 && r == FormatVersion(v, precision)
    requires var n := EditedNumber(Parse(text).value.clauses[k]);
      Rebuilt(Parse(text).value.clauses[k], Number(Truncate(v, precision), precision, n.start, n.start + |r|)) == Ok(c)
    ensures k < |Split(text, ',')|
    ensures var parts := Split(text, ',');
      var n := EditedNumber(Parse(text).value.clauses[k]);
      && Trim(parts[k]) == front + digits && digits != []
      && n.start == CoreAt(parts, 0, k) + |front| && n.end == CoreAt(parts, 0, k) + |Trim(parts[k])|
      && ClauseOf(front + r, CoreAt(parts, 0, k)) == Ok(c)
  {
    hide ClauseOf, Parse, FormatVersion, Trim, Lead, Rebuilt, EditedNumber, CoreAt, Split, Truncate;
    ClauseAt(text, k);
    var core, at, before := Trim(Split(text, ',')[k]), CoreAt(Split(text, ','), 0, k), Parse(text).value.clauses[k];
    front, digits := ClauseEdited(core, at, before, v, precision, r);
    DigitsLeft(core, at, before, front, digits);
  }

  /** Replacing the end of part `k`'s core is replacing that range of the text. */
  lemma TextReplaced(text: string, k: nat, front: string, digits: string, r: string) returns (part: string)
    requires k < |Split(text, ',')| && Trim(Split(text, ',')[k]) == front + digits && digits != [] && NumberText(r)
    ensures ',' !in part && Trim(part) == front + r && Lead(part) == Lead(Split(text, ',')[k])
    ensures var at := CoreAt(Split(text, ','), 0, k);
      && at + |front| <= at + |front + digits| <= |text|
      && Replaced(text, at + |front|, at + |front + digits|, r) == Join(Split(text, ',')[k := part], ',')
  {
    hide Trim, Lead;
    var parts := Split(text, ',');
    SplitThenJoin(text, ',');
    CoreReplaced(parts[k], front, digits, r);
    ReplaceInPart(parts, k, Lead(parts[k]) + |front|, Lead(parts[k]) + |front + digits|, r);
    part := Replaced(parts[k], Lead(parts[k]) + |front|, Lead(parts[k]) + |front + digits|, r);
  }

  /** Rewriting the edited number of clause `k` in a text that parses: every other
      clause stays as it was, and clause `k` becomes the rebuilt one. */
  lemma NumberReplaced(text: string, k: nat, v: Version, precision: nat, r: string, c: Clause)
    returns (clauses: seq<Clause>)
    requires Parse(text).Ok? && k < |Parse(text).value.clauses|
    requires 1 <= precision <= 3 && r == FormatVersion(v, precision)
    requires var n := EditedNumber(Parse(text).value.clauses[k]);
      Rebuilt(Parse(text).value.clauses[k], Number(Truncate(v, precision), precision, n.start, n.start + |r|)) == Ok(c)
    ensures var n := EditedNumber(Parse(text).value.clauses[k]);
      && n.start <= n.end <= |text|
      && var edited := Replaced(text, n.start, n.end, r);
      Parse(edited) == Ok(CompatSpec(edited, clauses))
    ensures k < |clauses| && clauses[k] == c && SameElsewhere(Parse(text).value.clauses, clauses, k)
  {
    hide ClauseOf, Parse, FormatVersion, Trim, Lead, Rebuilt, SameElsewhere, Replaced, EditedNumber, Join;
    var front, digits := EditedPart(text, k, v, precision, r, c);
    WrittenIsNumberText(v, precision);
    var part := TextReplaced(text, k, front, digits, r);
    clauses := PartReplaced(text, k, part, c);
  }

  lemma DigitsLeft(text: string, there: nat, c: Clause, front: string, digits: string)
    requires ClauseOf(text, there) == Ok(c) && text == front + digits
    requires EditedNumber(c).start == there + |front| && EditedNumber(c).end == there + |text|
    ensures digits != []
  {
    NumberNotEmpty(text, there, c);
  }

  lemma NumberNotEmpty(text: string, there: nat, c: Clause)
    requires ClauseOf(text, there) == Ok(c)
    ensures EditedNumber(c).start < EditedNumber(c).end
  {
    if c.kind == Hyphen {
      KindDecides(text, there);
      hide ClauseOf;
      var dash := IndexOf(text, '-');
      var lo, hi := text[..dash], text[dash + 1..];
      HyphenParts(lo, hi, there);
      hide HyphenOf;
      var raw := TrimStart(hi);
      NumberShape(raw, there + |lo| + 1 + (|hi| - |raw|));
    } else {
      OperatorBefore(text, there);
      ClauseShape(text, there);
    }
  }
}
