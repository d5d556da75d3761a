/** Pkg compatibility specifications (src/julia_version/compat.rs): a union of
    comma-separated clauses, each an interval of versions that remembers where in
    the text its numbers stand, so that an edit can replace one of them. */
module Compat {
  import opened Wrappers
  import opened Sequences
  import opened Text
  import opened Versions

  datatype ParseError = ParseError

  /** A version as written: its value, how many components were spelled, and the
      range of the text that holds them. */
  datatype Number = Number(version: Version, precision: nat, start: nat, end: nat)

  datatype Kind = Caret | Tilde | Exact | AtLeast | LessThan | Hyphen

  datatype Clause = Clause(kind: Kind, lower: Number, upper: Option<Number>, interval: VersionRange)

  datatype CompatSpec = CompatSpec(text: string, clauses: seq<Clause>)

  // ---- Numbers ----

  predicate StartsWith(s: string, c: char) {
    s != [] && s[0] == c
  }

  function StripV(s: string): string {
    if StartsWith(s, 'v') then s[1..] else s
  }

  /** Between one and three numerals, each within 32 bits. */
  predicate ValidParts(parts: seq<string>) {
    && |parts| <= 3
    && (forall i :: 0 <= i < |parts| ==> IsNumeral(parts[i]))
    && (forall i :: 0 <= i < |parts| ==> FromDecimal(parts[i]) <= MAX)
  }

  function PartValue(parts: seq<string>, i: nat): u32
    requires ValidParts(parts)
  {
    if i < |parts| then FromDecimal(parts[i]) else 0
  }

  function NumberOf(text: string, offset: nat): (r: Result<Number, ParseError>)
    ensures r.Ok? ==> 1 <= r.value.precision <= 3
  {
    var digits := StripV(text);
    var parts := Split(digits, '.');
    if !ValidParts(parts) then Err(ParseError)
    else Ok(Number(Version(PartValue(parts, 0), PartValue(parts, 1), PartValue(parts, 2)),
                   |parts|, offset + |text| - |digits|, offset + |text|))
  }

  method ParseNumber(text: string, offset: nat) returns (r: Result<Number, ParseError>)
    ensures r == NumberOf(text, offset)
  {
    var digits := StripV(text);
    var parts := Split(digits, '.');
    if |parts| > 3 || exists i :: 0 <= i < |parts| && !IsNumeral(parts[i]) {
      return Err(ParseError);
    }
    var values := new u32[3](_ => 0);
    for i := 0 to |parts|
      invariant forall k :: 0 <= k < i ==> FromDecimal(parts[k]) <= MAX && values[k] == FromDecimal(parts[k])
      invariant forall k :: i <= k < 3 ==> values[k] == 0
    {
      var value := FromDecimal(parts[i]);
      if value > MAX {
        return Err(ParseError);
      }
      values[i] := value;
    }
    r := Ok(Number(Version(values[0], values[1], values[2]),
                   |parts|, offset + |text| - |digits|, offset + |text|));
  }

  // ---- Clauses ----

  /** The operator a clause starts with, and what is left of it. */
  function Operator(text: string): (r: (Kind, string))
    ensures r.0 != Hyphen && |r.1| <= |text|
  {
    if |text| >= 2 && text[0] == '>' && text[1] == '=' then (AtLeast, TrimStart(text[2..]))
    else if StartsWith(text, '\U{2265}') then (AtLeast, TrimStart(text[1..]))
    else if StartsWith(text, '<') then (LessThan, TrimStart(text[1..]))
    else if StartsWith(text, '=') then (Exact, TrimStart(text[1..]))
    else if StartsWith(text, '~') then (Tilde, text[1..])
    else (Caret, if StartsWith(text, '^') then text[1..] else text)
  }

  function CaretWidth(v: Version, precision: nat): nat {
    if v.major != 0 then 1 else if v.minor != 0 then 2 else precision
  }

  /** The interval of an operator clause. */
  function OperatorInterval(kind: Kind, v: Version, precision: nat): VersionRange
    requires kind != Hyphen && 1 <= precision <= 3
  {
    match kind
    case Caret => VersionRange(v, Successor(v, CaretWidth(v, precision)))
    case Tilde => VersionRange(v, Successor(v, if precision <= 2 then precision else 2))
    case Exact => VersionRange(v, Successor(v, 3))
    case AtLeast => VersionRange(v, None)
    case LessThan => VersionRange(ZERO, Some(v))
  }

  function OperatorClause(kind: Kind, lower: Number): Result<Clause, ParseError>
    requires kind != Hyphen && 1 <= lower.precision <= 3
  {
    if lower.precision == 3 && lower.version == ZERO then Err(ParseError)
    else Ok(Clause(kind, lower, None, OperatorInterval(kind, lower.version, lower.precision)))
  }

  function HyphenClause(lower: Number, upper: Number): Clause
    requires 1 <= upper.precision <= 3
  {
    Clause(Hyphen, lower, Some(upper), VersionRange(lower.version, Successor(upper.version, upper.precision)))
  }

  /** The range between two numbers, when both could be read. */
  function RangeOf(lower: Result<Number, ParseError>, upper: Result<Number, ParseError>): (r: Result<Clause, ParseError>)
    requires upper.Ok? ==> 1 <= upper.value.precision <= 3
    ensures r.Ok? ==> r.value.kind == Hyphen
  {
    if lower.Err? then Err(lower.error)
    else if upper.Err? then Err(upper.error)
    else Ok(HyphenClause(lower.value, upper.value))
  }

  function HyphenOf(lo: string, hi: string, offset: nat): (r: Result<Clause, ParseError>)
    ensures r.Ok? ==> r.value.kind == Hyphen
  {
    if !(lo != [] && IsSpace(lo[|lo| - 1])) || !(hi != [] && IsSpace(hi[0])) then Err(ParseError)
    else
      var raw := TrimStart(hi);
      RangeOf(NumberOf(TrimEnd(lo), offset), NumberOf(raw, offset + |lo| + 1 + (|hi| - |raw|)))
  }

  function OperatorOf(text: string, offset: nat): (r: Result<Clause, ParseError>)
    ensures r.Ok? ==> r.value.kind != Hyphen
  {
    var (kind, raw) := Operator(text);
    match NumberOf(raw, offset + |text| - |raw|)
    case Err(e) => Err(e)
    case Ok(lower) => OperatorClause(kind, lower)
  }

  /** A clause with a dash in it is a hyphen range, every other one an operator
      and a number. */
  function ClauseOf(text: string, offset: nat): Result<Clause, ParseError> {
    var dash := IndexOf(text, '-');
    if dash < |text| then HyphenOf(text[..dash], text[dash + 1..], offset) else OperatorOf(text, offset)
  }

  // ---- Specifications ----

  type Parser<!T> = (string, nat) -> Result<T, ParseError>

  /** Parse each comma-separated part, trimmed, at the offset where it stands; the
      first failure wins. */
  function ParseAll<T>(parse: Parser<T>, parts: seq<string>, offset: nat): Result<seq<T>, ParseError> {
    if parts == [] then Ok([])
    else
      match parse(Trim(parts[0]), offset + Lead(parts[0]))
      case Err(e) => Err(e)
      case Ok(item) =>
        match ParseAll(parse, parts[1..], offset + |parts[0]| + 1)
        case Err(e) => Err(e)
        case Ok(items) => Ok([item] + items)
  }

  function Parse(text: string): Result<CompatSpec, ParseError> {
    match ParseAll(ClauseOf, Split(text, ','), 0)
    case Err(e) => Err(e)
    case Ok(clauses) => Ok(CompatSpec(text, clauses))
  }

  function Prepend<T>(items: seq<T>, rest: Result<seq<T>, ParseError>): Result<seq<T>, ParseError> {
    match rest
    case Err(e) => Err(e)
    case Ok(more) => Ok(items + more)
  }

  lemma PrependStep<T>(parse: Parser<T>, parts: seq<string>, i: nat, offset: nat, items: seq<T>)
    requires i < |parts|
    ensures var item := parse(Trim(parts[i]), offset + Lead(parts[i]));
      Prepend(items, ParseAll(parse, parts[i..], offset)) ==
        if item.Err? then Err(item.error)
        else Prepend(items + [item.value], ParseAll(parse, parts[i + 1..], offset + |parts[i]| + 1))
  {
    assert parts[i..][1..] == parts[i + 1..];
    var item := parse(Trim(parts[i]), offset + Lead(parts[i]));
    var rest := ParseAll(parse, parts[i + 1..], offset + |parts[i]| + 1);
    if item.Ok? && rest.Ok? {
      assert items + ([item.value] + rest.value) == (items + [item.value]) + rest.value;
    }
  }

  method ParseParts<T>(parse: Parser<T>, parts: seq<string>) returns (r: Result<seq<T>, ParseError>)
    ensures r == ParseAll(parse, parts, 0)
  {
    var items: seq<T> := [];
    var offset: nat := 0;
    ghost var all := ParseAll(parse, parts, 0);
    assert all.Ok? ==> [] + all.value == all.value;
    for i := 0 to |parts|
      invariant Prepend(items, ParseAll(parse, parts[i..], offset)) == all
    {
      PrependStep(parse, parts, i, offset, items);
      var item := parse(Trim(parts[i]), offset + Lead(parts[i]));
      if item.Err? {
        return Err(item.error);
      }
      items := items + [item.value];
      offset := offset + |parts[i]| + 1;
    }
    assert items + [] == items;
    r := Ok(items);
  }

  method ParseSpec(text: string) returns (r: Result<CompatSpec, ParseError>)
    ensures r == Parse(text)
  {
    var clauses := ParseParts(ClauseOf, Split(text, ','));
    r := if clauses.Err? then Err(clauses.error) else Ok(CompatSpec(text, clauses.value));
  }

  predicate Contains(clauses: seq<Clause>, v: Version) {
    exists i :: 0 <= i < |clauses| && InRange(clauses[i].interval, v)
  }

  /** The lowest floor and the highest ceiling of a union. */
  function Envelope(clauses: seq<Clause>): VersionRange
    requires clauses != []
  {
    var last := clauses[|clauses| - 1].interval;
    if |clauses| == 1 then last
    else
      var rest := Envelope(clauses[..|clauses| - 1]);
      VersionRange(
        if Less(last.min, rest.min) then last.min else rest.min,
        if rest.max.None? || last.max.None? then None
        else if Less(rest.max.value, last.max.value) then last.max else rest.max)
  }

  // ---- Edits ----

  function FormatVersion(v: Version, precision: nat): string {
    if precision == 1 then ToDecimal(v.major)
    else if precision == 2 then ToDecimal(v.major) + "." + ToDecimal(v.minor)
    else ToDecimal(v.major) + "." + ToDecimal(v.minor) + "." + ToDecimal(v.patch)
  }

  function PrecisionFor(clause: Clause, v: Version): nat {
    if clause.kind == Exact then
      var needed := if v.patch != 0 then 3 else if v.minor != 0 then 2 else 1;
      if clause.lower.precision >= needed then clause.lower.precision else needed
    else clause.lower.precision
  }

  /** The last clause with the greatest floor among those the filter keeps: all of
      them, or those that contain the given version. */
  function Selected(clauses: seq<Clause>, containing: Option<Version>): (r: Option<nat>)
    ensures r.Some? ==> r.value < |clauses|
  {
    if clauses == [] then None
    else
      var k := |clauses| - 1;
      var rest := Selected(clauses[..k], containing);
      if containing.Some? && !InRange(clauses[k].interval, containing.value) then rest
      else if rest.Some? && Less(clauses[k].interval.min, clauses[rest.value].interval.min) then rest
      else Some(k)
  }

  function NewArm(clause: Clause, v: Version): string {
    match clause.kind
    case Tilde => "~" + FormatVersion(v, PrecisionFor(clause, v))
    case Exact => "=" + FormatVersion(v, PrecisionFor(clause, v))
    case Caret => FormatVersion(v, PrecisionFor(clause, v))
    case _ => FormatVersion(v, 3)
  }

  /** The number of a clause that an edit replaces, and its new spelling; None
      when the clause already admits the version and keeps its text. */
  datatype Edit = Unchanged | Impossible | Rewrite(number: Number, replacement: string)

  function EditOf(clause: Clause, matching: bool, v: Version): Edit
    requires 1 <= clause.lower.precision <= 3
  {
    match clause.kind
    case Caret | Tilde | Exact =>
      Rewrite(clause.lower, FormatVersion(v, PrecisionFor(clause, v)))
    case LessThan =>
      if matching then Unchanged
      else if Successor(v, clause.lower.precision).None? then Impossible
      else Rewrite(clause.lower, FormatVersion(Successor(v, clause.lower.precision).value, clause.lower.precision))
    case Hyphen =>
      if matching then Unchanged
      else if clause.upper.None? then Impossible
      else Rewrite(clause.upper.value, FormatVersion(v, clause.upper.value.precision))
    case AtLeast => Unchanged
  }

  /** What every parsed specification satisfies: its numbers have one to three
      components and stand inside its text. */
  ghost predicate InText(n: Number, text: string) {
    1 <= n.precision <= 3 && n.start <= n.end <= |text|
  }

  ghost predicate WellFormed(spec: CompatSpec) {
    forall i :: 0 <= i < |spec.clauses| ==>
      && InText(spec.clauses[i].lower, spec.text)
      && (spec.clauses[i].upper.Some? ==> InText(spec.clauses[i].upper.value, spec.text))
  }

  function WithVersion(spec: CompatSpec, v: Version): Option<string>
    requires WellFormed(spec)
  {
    var matching := Selected(spec.clauses, Some(v));
    var chosen := if matching.Some? then matching else Selected(spec.clauses, None);
    if chosen.None? then None
    else
      var clause := spec.clauses[chosen.value];
      if Less(v, clause.interval.min) then None
      else if matching.None? && |spec.clauses| > 1 then Some(spec.text + ", " + NewArm(clause, v))
      else
        match EditOf(clause, matching.Some?, v)
        case Unchanged => Some(spec.text)
        case Impossible => None
        case Rewrite(number, replacement) =>
          Some(Replaced(spec.text, number.start, number.end, replacement))
  }
}
