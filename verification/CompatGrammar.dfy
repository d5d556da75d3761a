/** The grammar of Pkg compatibility specifications (src/julia_version/compat.rs):
    the texts that parse are exactly the ones written by it, and each means what
    its operators say, whatever blanks, prefixes and leading zeros it is written
    with. */
module CompatGrammar {
  import opened Wrappers
  import opened Sequences
  import opened Text
  import opened Versions
  import opened Compat
  import opened CompatClauses
  import opened CompatParsing
  import opened CompatEdits

  // ---- Numbers ----

  /** A number as written: an optional `v`, then numerals between dots. */
  datatype Numeral = Numeral(v: bool, parts: seq<string>)

  ghost predicate WellSpelled(n: Numeral) {
    && 1 <= |n.parts| <= 3
    && (forall i :: 0 <= i < |n.parts| ==> IsNumeral(n.parts[i]))
    && (forall i :: 0 <= i < |n.parts| ==> FromDecimal(n.parts[i]) <= 0xFFFF_FFFF)
  }

  function Sigil(n: Numeral): string {
    if n.v then "v" else ""
  }

  function Spelling(n: Numeral): string
    requires n.parts != []
  {
    Sigil(n) + Join(n.parts, '.')
  }

  function Component(n: Numeral, i: nat): u32
    requires WellSpelled(n)
  {
    if i < |n.parts| then FromDecimal(n.parts[i]) else 0
  }

  function Value(n: Numeral): Version
    requires WellSpelled(n)
  {
    Version(Component(n, 0), Component(n, 1), Component(n, 2))
  }

  /** The number read from a numeral that starts at a place of the text. */
  function Read(n: Numeral, at: nat): Number
    requires WellSpelled(n)
  {
    Number(Value(n), |n.parts|, at + |Sigil(n)|, at + |Spelling(n)|)
  }

  lemma NumeralsHaveNo(parts: seq<string>, c: char)
    requires !IsDigit(c) && forall i :: 0 <= i < |parts| ==> IsNumeral(parts[i])
    ensures Separated(parts, c)
  {
  }

  lemma NumberReads(n: Numeral, at: nat)
    requires WellSpelled(n)
    ensures NumberOf(Spelling(n), at) == Ok(Read(n, at))
  {
    hide NumberOf, Join, Split, StripV;
    var digits := Join(n.parts, '.');
    NumeralsHaveNo(n.parts, '.');
    JoinThenSplit(n.parts, '.');
    NumeralEnds(n.parts);
    StripPrefix(Sigil(n), digits);
    SplitDecides(Spelling(n), at, n.parts);
  }

  lemma NumberIsWritten(text: string, at: nat) returns (n: Numeral)
    requires NumberOf(text, at).Ok?
    ensures WellSpelled(n) && text == Spelling(n)
  {
    var digits := StripV(text);
    n := Numeral(StartsWith(text, 'v'), Split(digits, '.'));
    SplitThenJoin(digits, '.');
  }

  // ---- Clauses ----

  datatype Sign = NoSign | CaretSign | TildeSign | EqualSign | LessSign | AtLeastSign | AtLeastSymbol

  function Symbol(s: Sign): string {
    match s
    case NoSign => ""
    case CaretSign => "^"
    case TildeSign => "~"
    case EqualSign => "="
    case LessSign => "<"
    case AtLeastSign => ">="
    case AtLeastSymbol => "\U{2265}"
  }

  function KindOf(s: Sign): Kind {
    match s
    case NoSign | CaretSign => Caret
    case TildeSign => Tilde
    case EqualSign => Exact
    case LessSign => LessThan
    case AtLeastSign | AtLeastSymbol => AtLeast
  }

  /** A clause as written: a sign, blanks and a number, or two numbers around a
      dash with blanks on both sides of it. */
  datatype Written =
    | Signed(sign: Sign, blank: string, number: Numeral)
    | Between(lower: Numeral, left: string, right: string, upper: Numeral)

  /** Blanks may follow the comparison signs only; and the three-component zero is
      no number for a sign. */
  ghost predicate Grammatical(c: Written) {
    match c
    case Signed(sign, blank, number) =>
      && WellSpelled(number) && Blank(blank)
      && (sign in {NoSign, CaretSign, TildeSign} ==> blank == "")
      && !(|number.parts| == 3 && Value(number) == Version(0, 0, 0))
    case Between(lower, left, right, upper) =>
      && WellSpelled(lower) && WellSpelled(upper)
      && left != "" && Blank(left) && right != "" && Blank(right)
  }

  function Spelled(c: Written): string
    requires match c
      case Signed(_, _, number) => number.parts != []
      case Between(lower, _, _, upper) => lower.parts != [] && upper.parts != []
  {
    match c
    case Signed(sign, blank, number) => Symbol(sign) + blank + Spelling(number)
    case Between(lower, left, right, upper) => Spelling(lower) + left + "-" + (right + Spelling(upper))
  }

  /** The versions a written clause admits. */
  ghost predicate Admits(c: Written, w: Version)
    requires Grammatical(c)
  {
    match c
    case Signed(sign, _, number) =>
      var v := Value(number);
      (match sign
       case NoSign | CaretSign =>
         && AtMost(v, w)
         && (if v.major != 0 then w.major == v.major
             else if v.minor != 0 then w.major == 0 && w.minor == v.minor
             else w.major == 0 && (|number.parts| >= 2 ==> w.minor == 0) && (|number.parts| == 3 ==> w.patch == v.patch))
       case TildeSign => AtMost(v, w) && w.major == v.major && (|number.parts| == 1 || w.minor == v.minor)
       case EqualSign => w == v
       case LessSign => Less(w, v)
       case AtLeastSign | AtLeastSymbol => AtMost(v, w))
    case Between(lower, _, _, upper) =>
      var v, u := Value(lower), Value(upper);
      && AtMost(v, w)
      && (|| AtMost(w, u)
          || (w.major == u.major && |upper.parts| == 1)
          || (w.major == u.major && w.minor == u.minor && |upper.parts| == 2))
  }

  /** The kind of a clause, and its numbers where they stand. */
  ghost predicate Placed(c: Clause, w: Written, at: nat)
    requires Grammatical(w)
  {
    match w
    case Signed(sign, blank, number) =>
      c.kind == KindOf(sign) && c.lower == Read(number, at + |Symbol(sign)| + |blank|) && c.upper == None
    case Between(lower, left, right, upper) =>
      && c.kind == Hyphen && c.lower == Read(lower, at)
      && c.upper == Some(Read(upper, at + |Spelling(lower)| + |left| + 1 + |right|))
  }

  /** A clause read from a written one: where it stands, and what it admits. */
  ghost predicate Means(c: Clause, w: Written, at: nat)
    requires Grammatical(w)
  {
    Placed(c, w, at) && forall v :: InRange(c.interval, v) <==> Admits(w, v)
  }

  lemma SpellingEnds(n: Numeral)
    requires WellSpelled(n)
    ensures var s := Spelling(n);
      && s != [] && (s[0] == 'v' || IsDigit(s[0])) && IsDigit(s[|s| - 1])
      && forall i :: 0 <= i < |s| ==> IsDigit(s[i]) || s[i] == '.' || s[i] == 'v'
  {
    NumeralEnds(n.parts);
    DigitsAndDots(n.parts);
  }

  lemma {:induction false} DigitsAndDots(parts: seq<string>)
    requires parts != [] && forall i :: 0 <= i < |parts| ==> IsNumeral(parts[i])
    ensures forall i :: 0 <= i < |Join(parts, '.')| ==> IsDigit(Join(parts, '.')[i]) || Join(parts, '.')[i] == '.'
    decreases |parts|
  {
    assert IsNumeral(parts[0]);
    if |parts| > 1 {
      DigitsAndDots(parts[1..]);
    }
  }

  /** The text behind an operator, before blanks are dropped. */
  lemma SymbolReads(sign: Sign, rest: string)
    requires rest != [] && (sign == NoSign ==> rest[0] == 'v' || IsDigit(rest[0]))
    ensures var text := Symbol(sign) + rest;
      Operator(text) == (KindOf(sign), if sign in {NoSign, CaretSign, TildeSign} then rest else TrimStart(rest))
  {
    hide TrimStart;
    var text := Symbol(sign) + rest;
    assert text[|Symbol(sign)|..] == rest;
    assert sign == NoSign ==> text == rest;
  }

  lemma OperatorReads(sign: Sign, blank: string, rest: string)
    requires rest != [] && (rest[0] == 'v' || IsDigit(rest[0])) && Blank(blank)
    requires sign in {NoSign, CaretSign, TildeSign} ==> blank == ""
    ensures Operator(Symbol(sign) + blank + rest) == (KindOf(sign), rest)
  {
    hide Operator, Symbol, TrimStart;
    TrimStartAt(blank, rest);
    hide IsSpace, Blank;
    assert Symbol(sign) + blank + rest == Symbol(sign) + (blank + rest);
    assert blank == "" ==> blank + rest == rest;
    SymbolReads(sign, blank + rest);
  }

  function SignOf(text: string): Sign {
    if |text| >= 2 && text[0] == '>' && text[1] == '=' then AtLeastSign
    else if StartsWith(text, '\U{2265}') then AtLeastSymbol
    else if StartsWith(text, '<') then LessSign
    else if StartsWith(text, '=') then EqualSign
    else if StartsWith(text, '~') then TildeSign
    else if StartsWith(text, '^') then CaretSign
    else NoSign
  }

  lemma SignIsFirst(text: string) returns (rest: string)
    ensures text == Symbol(SignOf(text)) + rest
    ensures Operator(text) ==
      (KindOf(SignOf(text)), if SignOf(text) in {NoSign, CaretSign, TildeSign} then rest else TrimStart(rest))
  {
    hide TrimStart;
    rest := text[|Symbol(SignOf(text))|..];
  }

  lemma OperatorIsWritten(text: string) returns (sign: Sign, blank: string)
    ensures var (kind, raw) := Operator(text);
      && kind == KindOf(sign) && Blank(blank) && text == Symbol(sign) + blank + raw
      && (sign in {NoSign, CaretSign, TildeSign} ==> blank == "")
  {
    hide Operator, SignOf, Symbol, TrimStart, IsSpace;
    sign := SignOf(text);
    var rest := SignIsFirst(text);
    var raw := Operator(text).1;
    TrimStartParts(rest);
    if sign in {NoSign, CaretSign, TildeSign} {
      blank := "";
      assert Symbol(sign) + "" + rest == Symbol(sign) + rest;
    } else {
      blank := rest[..|rest| - |raw|];
      assert rest == blank + raw;
      assert Symbol(sign) + blank + raw == Symbol(sign) + (blank + raw);
    }
  }

  lemma NoDashIn(c: Written)
    requires Grammatical(c) && c.Signed?
    ensures IndexOf(Spelled(c), '-') == |Spelled(c)|
  {
    var text := Spelled(c);
    SpellingEnds(c.number);
    assert '-' !in c.blank by {
      assert !IsSpace('-');
    }
    assert '-' !in text;
    assert text[..|text|] == text;
    IndexOfAt(text, '-', |text|);
  }

  lemma SignedReads(c: Written, at: nat)
    requires Grammatical(c) && c.Signed?
    ensures ClauseOf(Spelled(c), at) == OperatorClause(KindOf(c.sign), Read(c.number, at + |Symbol(c.sign)| + |c.blank|))
  {
    UpperPrecision(c.number);
    NoDashIn(c);
    hide Operator, NumberOf, OperatorClause, IndexOf, Spelling, Symbol, Read, WellSpelled, ClauseOf, OperatorOf, Blank, Value;
    var rest, start := Spelling(c.number), at + |Symbol(c.sign)| + |c.blank|;
    SpellingEnds(c.number);
    OperatorReads(c.sign, c.blank, rest);
    NumberReads(c.number, start);
    ReadFields(c.number, start);
    OperatorDecides(Spelled(c), at, KindOf(c.sign), rest, Read(c.number, start));
    NoDashDecides(Spelled(c), at, OperatorOf(Spelled(c), at));
  }

  lemma SideReads(lower: Numeral, left: string, right: string, upper: Numeral)
    requires WellSpelled(lower) && WellSpelled(upper)
    requires left != "" && Blank(left) && right != "" && Blank(right)
    ensures var lo, hi := Spelling(lower) + left, right + Spelling(upper);
      && TrimEnd(lo) == Spelling(lower) && TrimStart(hi) == Spelling(upper) && '-' !in lo
      && IsSpace(lo[|lo| - 1]) && IsSpace(hi[0])
  {
    hide Spelling, TrimEnd, TrimStart;
    SpellingEnds(lower);
    SpellingEnds(upper);
    TrimEndAt(Spelling(lower), left);
    TrimStartAt(right, Spelling(upper));
    var lo := Spelling(lower) + left;
    forall i | 0 <= i < |lo|
      ensures lo[i] != '-'
    {
      assert i >= |Spelling(lower)| ==> lo[i] == left[i - |Spelling(lower)|];
    }
  }

  lemma BetweenReads(c: Written, at: nat)
    requires Grammatical(c) && c.Between?
    ensures ClauseOf(Spelled(c), at)
         == Ok(HyphenClause(Read(c.lower, at), Read(c.upper, at + |Spelling(c.lower)| + |c.left| + 1 + |c.right|)))
  {
    hide NumberOf, HyphenOf, ClauseOf, TrimStart, TrimEnd, Spelling, IsSpace, HyphenClause, Read, WellSpelled, Blank;
    UpperPrecision(c.lower);
    UpperPrecision(c.upper);
    var lo, hi := Spelling(c.lower) + c.left, c.right + Spelling(c.upper);
    SideReads(c.lower, c.left, c.right, c.upper);
    NumberReads(c.lower, at);
    NumberReads(c.upper, at + |lo| + 1 + |c.right|);
    ReadFields(c.upper, at + |lo| + 1 + |c.right|);
    var lower, upper := Read(c.lower, at), Read(c.upper, at + |lo| + 1 + |c.right|);
    HyphenAfter(lo, hi, at, lower, upper);
    JoinedAtDash(Spelled(c), lo, hi, at, HyphenOf(lo, hi, at));
  }

  lemma UpperPrecision(n: Numeral)
    requires WellSpelled(n)
    ensures 1 <= |n.parts| <= 3
  {
  }

  lemma HyphenMeaning(lower: Number, upper: Number, w: Version)
    requires 1 <= upper.precision <= 3 && Truncate(upper.version, upper.precision) == upper.version
    ensures InRange(HyphenClause(lower, upper).interval, w) <==>
      && AtMost(lower.version, w)
      && (|| AtMost(w, upper.version)
          || (w.major == upper.version.major && upper.precision == 1)
          || (w.major == upper.version.major && w.minor == upper.version.minor && upper.precision == 2))
  {
    HyphenAdmits(lower, upper, w);
    hide HyphenClause;
  }

  lemma SignedMeans(c: Written, at: nat) returns (clause: Clause)
    requires Grammatical(c) && c.Signed?
    ensures ClauseOf(Spelled(c), at) == Ok(clause) && Means(clause, c, at)
  {
    SignedReads(c, at);
    hide ClauseOf, Read, OperatorInterval, Spelled, Spelling, Symbol, InRange, Value, WellSpelled, Less, Admits, Blank;
    var n := Read(c.number, at + |Symbol(c.sign)| + |c.blank|);
    ReadFields(c.number, at + |Symbol(c.sign)| + |c.blank|);
    UpperPrecision(c.number);
    clause := OperatorClause(KindOf(c.sign), n).value;
    SignedAdmits(c, n);
  }

  lemma SignedAdmits(c: Written, n: Number)
    requires Grammatical(c) && c.Signed? && n.version == Value(c.number) && n.precision == |c.number.parts|
    ensures 1 <= n.precision <= 3
    ensures forall v :: InRange(OperatorInterval(KindOf(c.sign), n.version, n.precision), v) <==> Admits(c, v)
  {
    UpperPrecision(c.number);
    hide OperatorInterval, InRange, Value, WellSpelled, Less, Blank;
    forall v
      ensures InRange(OperatorInterval(KindOf(c.sign), n.version, n.precision), v) <==> Admits(c, v)
    {
      OperatorAdmits(KindOf(c.sign), n.version, n.precision, v);
    }
  }

  lemma BetweenMeans(c: Written, at: nat) returns (clause: Clause)
    requires Grammatical(c) && c.Between?
    ensures ClauseOf(Spelled(c), at) == Ok(clause) && Means(clause, c, at)
  {
    UpperPrecision(c.lower);
    UpperPrecision(c.upper);
    hide ClauseOf, Read, Spelled, Spelling, InRange, Value, WellSpelled, Admits, HyphenClause, Blank, IsSpace;
    BetweenReads(c, at);
    var lower, upper := Read(c.lower, at), Read(c.upper, at + |Spelling(c.lower)| + |c.left| + 1 + |c.right|);
    ReadFields(c.lower, at);
    ReadFields(c.upper, at + |Spelling(c.lower)| + |c.left| + 1 + |c.right|);
    clause := HyphenClause(lower, upper);
    HyphenFields(lower, upper);
    assert Placed(clause, c, at);
    BetweenAdmits(c, lower, upper);
  }

  lemma HyphenFields(lower: Number, upper: Number)
    requires 1 <= upper.precision <= 3
    ensures var c := HyphenClause(lower, upper); c.kind == Hyphen && c.lower == lower && c.upper == Some(upper)
  {
  }

  lemma BetweenAdmits(c: Written, lower: Number, upper: Number)
    requires Grammatical(c) && c.Between? && lower.version == Value(c.lower)
    requires upper.version == Value(c.upper) && upper.precision == |c.upper.parts|
    ensures 1 <= upper.precision <= 3
    ensures forall v :: InRange(HyphenClause(lower, upper).interval, v) <==> Admits(c, v)
  {
    UpperPrecision(c.upper);
    ReadFields(c.upper, 0);
    hide Read, InRange, Value, WellSpelled, Less, HyphenClause, Blank;
    forall v
      ensures InRange(HyphenClause(lower, upper).interval, v) <==> Admits(c, v)
    {
      HyphenMeaning(lower, upper, v);
    }
  }

  /** Every written clause is read, at whatever place, as what it means. */
  lemma ClauseReads(c: Written, at: nat) returns (clause: Clause)
    requires Grammatical(c)
    ensures ClauseOf(Spelled(c), at) == Ok(clause) && Means(clause, c, at)
  {
    hide ClauseOf, Means, Grammatical, Spelled;
    if c.Signed? {
      clause := SignedMeans(c, at);
    } else {
      clause := BetweenMeans(c, at);
    }
  }

  lemma ReadFields(n: Numeral, at: nat)
    requires WellSpelled(n)
    ensures Read(n, at).version == Value(n) && Read(n, at).precision == |n.parts|
    ensures Truncate(Value(n), |n.parts|) == Value(n)
  {
  }

  /** Every text that is read as a clause was written by the grammar. */
  lemma ClauseIsWritten(text: string, at: nat) returns (c: Written)
    requires ClauseOf(text, at).Ok?
    ensures Grammatical(c) && text == Spelled(c)
  {
    KindDecides(text, at);
    if ClauseOf(text, at).value.kind == Hyphen {
      hide ClauseOf;
      var lo, hi := SplitAtDash(text, at);
      c := BetweenIsWritten(lo, hi, at);
    } else {
      hide ClauseOf;
      c := SignedIsWritten(text, at);
    }
  }

  lemma LeftSide(lo: string) returns (left: string)
    requires lo != [] && IsSpace(lo[|lo| - 1])
    ensures lo == TrimEnd(lo) + left && left != "" && Blank(left)
  {
    TrimEndParts(lo);
    left := lo[|TrimEnd(lo)|..];
  }

  lemma RightSide(hi: string) returns (right: string)
    requires hi != [] && IsSpace(hi[0])
    ensures hi == right + TrimStart(hi) && right != "" && Blank(right)
  {
    TrimStartParts(hi);
    right := hi[..|hi| - |TrimStart(hi)|];
  }

  lemma BetweenIsWritten(lo: string, hi: string, at: nat) returns (c: Written)
    requires HyphenOf(lo, hi, at).Ok?
    ensures Grammatical(c) && lo + "-" + hi == Spelled(c)
  {
    HyphenParts(lo, hi, at);
    hide HyphenOf, NumberOf, TrimStart, TrimEnd, Spelling, IsSpace, Blank;
    var raw := TrimStart(hi);
    var lower := NumberIsWritten(TrimEnd(lo), at);
    var upper := NumberIsWritten(raw, at + |lo| + 1 + (|hi| - |raw|));
    hide WellSpelled;
    var left := LeftSide(lo);
    var right := RightSide(hi);
    UpperPrecision(lower);
    UpperPrecision(upper);
    c := Between(lower, left, right, upper);
    assert Spelled(c) == Spelling(lower) + left + "-" + (right + Spelling(upper));
  }

  lemma SignedIsWritten(text: string, at: nat) returns (c: Written)
    requires OperatorOf(text, at).Ok?
    ensures Grammatical(c) && text == Spelled(c)
  {
    var (kind, raw) := Operator(text);
    var number := NumberIsWritten(raw, at + |text| - |raw|);
    NumberReads(number, at + |text| - |raw|);
    var sign, blank := OperatorIsWritten(text);
    c := Signed(sign, blank, number);
    ReadFields(number, at + |text| - |raw|);
    hide Operator, NumberOf;
  }

  // ---- Specifications ----

  /** One part between commas: a clause with blanks around it. */
  datatype Part = Part(lead: string, clause: Written, trail: string)

  ghost predicate WellFormedPart(p: Part) {
    Blank(p.lead) && Grammatical(p.clause) && Blank(p.trail)
  }

  ghost function Layout(p: Part): string
    requires WellFormedPart(p)
  {
    p.lead + Spelled(p.clause) + p.trail
  }

  ghost predicate WellFormedParts(parts: seq<Part>) {
    parts != [] && forall k :: 0 <= k < |parts| ==> WellFormedPart(parts[k])
  }

  ghost function Layouts(parts: seq<Part>): (texts: seq<string>)
    requires forall k :: 0 <= k < |parts| ==> WellFormedPart(parts[k])
    ensures |texts| == |parts| && forall k :: 0 <= k < |parts| ==> texts[k] == Layout(parts[k])
  {
    seq(|parts|, k requires 0 <= k < |parts| => Layout(parts[k]))
  }

  /** The text of a specification with the given parts. */
  ghost function Document(parts: seq<Part>): string
    requires WellFormedParts(parts)
  {
    Join(Layouts(parts), ',')
  }

  lemma SymbolVisible(s: Sign)
    ensures forall i :: 0 <= i < |Symbol(s)| ==> !IsSpace(Symbol(s)[i]) && Symbol(s)[i] != ','
  {
  }

  /** A clause has visible ends and no comma in it. */
  lemma SpelledEnds(c: Written)
    requires Grammatical(c)
    ensures var s := Spelled(c);
      s != [] && !IsSpace(s[0]) && !IsSpace(s[|s| - 1]) && ',' !in s
  {
    var s := Spelled(c);
    if c.Signed? {
      SymbolVisible(c.sign);
      SpellingEnds(c.number);
      NoComma(c.blank);
      hide Spelling, Symbol;
      var n := Spelling(c.number);
      assert s[|s| - 1] == n[|n| - 1];
      assert c.blank == "" || Symbol(c.sign) != "" by {
        SignedBlank(c.sign);
      }
    } else {
      SpellingEnds(c.lower);
      SpellingEnds(c.upper);
      NoComma(c.left);
      NoComma(c.right);
      hide Spelling;
      var n := Spelling(c.upper);
      assert s[|s| - 1] == n[|n| - 1];
    }
  }

  lemma SignedBlank(s: Sign)
    ensures Symbol(s) == "" ==> s == NoSign
  {
  }

  lemma NoComma(blank: string)
    requires Blank(blank)
    ensures ',' !in blank
  {
    assert !IsSpace(',');
  }

  lemma LayoutTrims(p: Part)
    requires WellFormedPart(p)
    ensures Trim(Layout(p)) == Spelled(p.clause) && ',' !in Layout(p) && Lead(Layout(p)) == |p.lead|
  {
    SpelledEnds(p.clause);
    NoComma(p.lead);
    NoComma(p.trail);
    hide Spelled, Grammatical, IsSpace, Blank;
    TrimAround(p.lead, Spelled(p.clause), p.trail);
  }

  /** Where the clause of part `k` stands in the document. */
  ghost function Place(parts: seq<Part>, k: nat): nat
    requires WellFormedParts(parts) && k < |parts|
  {
    Offset(Layouts(parts), k) + |parts[k].lead|
  }

  lemma PartReads(parts: seq<Part>, k: nat) returns (clause: Clause)
    requires WellFormedParts(parts) && k < |parts|
    ensures ClauseOf(Trim(Layouts(parts)[k]), CoreAt(Layouts(parts), 0, k)) == Ok(clause)
    ensures Means(clause, parts[k].clause, Place(parts, k))
  {
    hide ClauseOf, Means, Trim, Lead, Layout, Grammatical, Spelled;
    LayoutTrims(parts[k]);
    clause := ClauseReads(parts[k].clause, Place(parts, k));
  }

  lemma {:induction false} PartsRead(parts: seq<Part>, n: nat) returns (clauses: seq<Clause>)
    requires WellFormedParts(parts) && n <= |parts|
    ensures |clauses| == n
    ensures forall k :: 0 <= k < n ==>
      && ClauseOf(Trim(Layouts(parts)[k]), CoreAt(Layouts(parts), 0, k)) == Ok(clauses[k])
      && Means(clauses[k], parts[k].clause, Place(parts, k))
    decreases n
  {
    hide ClauseOf, Means, Trim, CoreAt, Layouts, Place;
    if n == 0 {
      clauses := [];
    } else {
      clauses := PartsRead(parts, n - 1);
      var last := PartReads(parts, n - 1);
      clauses := clauses + [last];
    }
  }

  lemma LayoutsSplit(parts: seq<Part>)
    requires WellFormedParts(parts)
    ensures Split(Document(parts), ',') == Layouts(parts)
  {
    hide Layout, WellFormedPart;
    forall k | 0 <= k < |parts|
      ensures ',' !in Layouts(parts)[k]
    {
      LayoutTrims(parts[k]);
    }
    JoinThenSplit(Layouts(parts), ',');
  }

  /** Every document written by the grammar parses, clause by clause, to what its
      parts mean where they stand. */
  lemma DocumentReads(parts: seq<Part>) returns (clauses: seq<Clause>)
    requires WellFormedParts(parts)
    ensures Parse(Document(parts)) == Ok(CompatSpec(Document(parts), clauses)) && |clauses| == |parts|
    ensures forall k :: 0 <= k < |parts| ==> Means(clauses[k], parts[k].clause, Place(parts, k))
  {
    hide ClauseOf, Means, Trim, CoreAt, Layouts, Place, Document, ParseAll;
    clauses := PartsRead(parts, |parts|);
    LayoutsSplit(parts);
    ParsedAll(ClauseOf, Layouts(parts), 0, clauses);
  }

  lemma PartIsWritten(text: string, at: nat) returns (p: Part)
    requires ClauseOf(Trim(text), at).Ok?
    ensures WellFormedPart(p) && text == Layout(p)
  {
    var c := ClauseIsWritten(Trim(text), at);
    SpelledEnds(c);
    hide ClauseOf, Grammatical, Spelled, Trim, Lead, IsSpace, Blank;
    TrimParts(text);
    p := Part(text[..Lead(text)], c, text[Lead(text) + |Trim(text)|..]);
  }

  lemma {:induction false} PartsAreWritten(text: string, n: nat) returns (parts: seq<Part>)
    requires Parse(text).Ok? && n <= |Split(text, ',')|
    ensures |parts| == n && forall k :: 0 <= k < n ==> WellFormedPart(parts[k]) && Layout(parts[k]) == Split(text, ',')[k]
    decreases n
  {
    hide Parse, Split, CoreAt, Trim, WellFormedPart, Layout, ClauseOf;
    if n == 0 {
      parts := [];
    } else {
      parts := PartsAreWritten(text, n - 1);
      ClauseAt(text, n - 1);
      var last := PartIsWritten(Split(text, ',')[n - 1], CoreAt(Split(text, ','), 0, n - 1));
      parts := parts + [last];
    }
  }

  /** Every text that parses is such a document. */
  lemma TextIsDocument(text: string) returns (parts: seq<Part>)
    requires Parse(text).Ok?
    ensures WellFormedParts(parts) && text == Document(parts)
  {
    hide Parse, Layout, WellFormedPart;
    SplitThenJoin(text, ',');
    parts := PartsAreWritten(text, |Split(text, ',')|);
    assert Layouts(parts) == Split(text, ',');
  }

  ghost predicate IsDocument(text: string) {
    exists parts :: WellFormedParts(parts) && text == Document(parts)
  }

  /** A text parses if and only if the grammar writes it. */
  lemma ParsesExactlyDocuments(text: string)
    ensures Parse(text).Ok? <==> IsDocument(text)
  {
    hide Parse, Document, WellFormedParts;
    if Parse(text).Ok? {
      var parts := TextIsDocument(text);
    }
    if IsDocument(text) {
      var parts :| WellFormedParts(parts) && text == Document(parts);
      var clauses := DocumentReads(parts);
    }
  }

  ghost predicate SomePartAdmits(parts: seq<Part>, v: Version)
    requires WellFormedParts(parts)
  {
    exists k :: 0 <= k < |parts| && Admits(parts[k].clause, v)
  }

  /** A specification contains exactly the versions one of its clauses admits, as
      its operators are defined. */
  lemma ContainsWhatIsWritten(parts: seq<Part>, v: Version)
    requires WellFormedParts(parts)
    ensures Parse(Document(parts)).Ok?
    ensures Contains(Parse(Document(parts)).value.clauses, v) <==> SomePartAdmits(parts, v)
  {
    hide Parse, Document, Admits, InRange, Place;
    var clauses := DocumentReads(parts);
    if SomePartAdmits(parts, v) {
      var k :| 0 <= k < |parts| && Admits(parts[k].clause, v);
      assert Means(clauses[k], parts[k].clause, Place(parts, k));
    }
    if Contains(clauses, v) {
      var k :| 0 <= k < |clauses| && InRange(clauses[k].interval, v);
      assert Means(clauses[k], parts[k].clause, Place(parts, k));
    }
  }
}
