/** Rewriting one number of one clause: what the clause parses to afterwards. */
module CompatClauses {
  import opened Wrappers
  import opened Sequences
  import opened Text
  import opened Versions
  import opened Compat

  // ---- Written versions ----

  function WrittenParts(v: Version, precision: nat): (parts: seq<string>)
    requires 1 <= precision <= 3
    ensures |parts| == precision
    ensures forall i :: 0 <= i < precision ==> IsNumeral(parts[i])
  {
    [ToDecimal(v.major), ToDecimal(v.minor), ToDecimal(v.patch)][..precision]
  }

  lemma WrittenIsJoined(v: Version, precision: nat)
    requires 1 <= precision <= 3
    ensures FormatVersion(v, precision) == Join(WrittenParts(v, precision), '.')
  {
    var parts := WrittenParts(v, precision);
    if precision == 2 {
      assert parts[1..] == [ToDecimal(v.minor)];
    } else if precision == 3 {
      assert parts[1..][0] == ToDecimal(v.minor);
      assert parts[1..][1..] == [ToDecimal(v.patch)];
      assert Join(parts[1..], '.') == parts[1..][0] + ['.'] + Join(parts[1..][1..], '.');
      var a, b, c := ToDecimal(v.major), ToDecimal(v.minor), ToDecimal(v.patch);
      assert a + "." + b + "." + c == a + ['.'] + (b + ['.'] + c);
    }
  }

  /** Text that a number could be spelled with: digits at both ends, and nothing
      but digits and dots. */
  ghost predicate NumberText(s: string) {
    && s != [] && IsDigit(s[0]) && IsDigit(s[|s| - 1])
    && forall i :: 0 <= i < |s| ==> IsDigit(s[i]) || s[i] == '.'
  }

  lemma WrittenIsNumberText(v: Version, precision: nat)
    requires 1 <= precision <= 3
    ensures NumberText(FormatVersion(v, precision))
  {
  }

  lemma WrittenSplits(v: Version, precision: nat)
    requires 1 <= precision <= 3
    ensures Split(FormatVersion(v, precision), '.') == WrittenParts(v, precision)
  {
    WrittenIsJoined(v, precision);
    JoinThenSplit(WrittenParts(v, precision), '.');
  }

  lemma WrittenValues(v: Version, precision: nat)
    requires 1 <= precision <= 3
    ensures var parts := WrittenParts(v, precision);
      && ValidParts(parts)
      && Version(PartValue(parts, 0), PartValue(parts, 1), PartValue(parts, 2)) == Truncate(v, precision)
  {
    DecimalRoundTrip(v.major);
    DecimalRoundTrip(v.minor);
    DecimalRoundTrip(v.patch);
  }

  lemma SplitDecides(text: string, offset: nat, parts: seq<string>)
    requires Split(StripV(text), '.') == parts && ValidParts(parts)
    ensures NumberOf(text, offset)
         == Ok(Number(Version(PartValue(parts, 0), PartValue(parts, 1), PartValue(parts, 2)),
                      |parts|, offset + |text| - |StripV(text)|, offset + |text|))
  {
  }

  /** A written version, with or without a leading `v`, reads back as the version
      cut to its precision. */
  lemma WrittenNumber(text: string, v: Version, precision: nat, offset: nat)
    requires 1 <= precision <= 3 && StripV(text) == FormatVersion(v, precision)
    ensures NumberOf(text, offset)
         == Ok(Number(Truncate(v, precision), precision, offset + |text| - |FormatVersion(v, precision)|, offset + |text|))
  {
    WrittenSplits(v, precision);
    WrittenValues(v, precision);
    SplitDecides(text, offset, WrittenParts(v, precision));
  }

  /** What a successful reading says about the text: an optional `v`, then digits. */
  lemma NumberShape(text: string, offset: nat)
    requires NumberOf(text, offset).Ok?
    ensures var n := NumberOf(text, offset).value;
      && 1 <= n.precision <= 3
      && n.start == offset + |text| - |StripV(text)| && n.end == offset + |text|
      && StripV(text) != [] && IsDigit(StripV(text)[0]) && IsDigit(StripV(text)[|StripV(text)| - 1])
  {
    var digits := StripV(text);
    SplitThenJoin(digits, '.');
    NumeralEnds(Split(digits, '.'));
  }

  lemma {:induction false} NumeralEnds(parts: seq<string>)
    requires |parts| >= 1 && forall i :: 0 <= i < |parts| ==> IsNumeral(parts[i])
    ensures var s := Join(parts, '.');
      s != [] && IsDigit(s[0]) && IsDigit(s[|s| - 1])
    decreases |parts|
  {
    assert IsNumeral(parts[0]);
    if |parts| > 1 {
      NumeralEnds(parts[1..]);
    }
  }

  // ---- Operator clauses ----

  lemma StripPrefix(prefix: string, digits: string)
    requires prefix == "" || prefix == "v"
    requires digits != [] && IsDigit(digits[0])
    ensures StripV(prefix + digits) == digits
  {
    if prefix == "v" {
      assert (prefix + digits)[1..] == digits;
    } else {
      assert prefix + digits == digits;
    }
  }

  lemma PrefixOf(head: string, digits: string)
    requires digits == StripV(head + digits)
    ensures head == "" || head == "v"
  {
    assert |head + digits| == |head| + |digits|;
    if StartsWith(head + digits, 'v') {
      assert head == "v";
    }
  }

  /** In front of a number stand blanks and an optional `v`. */
  lemma HeadShape(head: string, digits: string) returns (blank: string, prefix: string)
    requires digits != [] && IsDigit(digits[0])
    requires digits == StripV(TrimStart(head + digits))
    ensures head == blank + prefix && Blank(blank) && (prefix == "" || prefix == "v")
  {
    var rest := head + digits;
    TrimStartParts(rest);
    var raw := TrimStart(rest);
    var n := |rest| - |raw|;
    assert |digits| <= |raw|;
    blank, prefix := head[..n], head[n..];
    assert blank == rest[..n];
    assert raw == prefix + digits;
    PrefixOf(prefix, digits);
  }

  lemma TrimBeforeNumber(blank: string, prefix: string, digits: string)
    requires Blank(blank) && (prefix == "" || prefix == "v")
    requires digits != [] && IsDigit(digits[0])
    ensures TrimStart(blank + prefix + digits) == prefix + digits
    ensures StripV(TrimStart(blank + prefix + digits)) == digits
  {
    assert blank + prefix + digits == blank + (prefix + digits);
    TrimStartAt(blank, prefix + digits);
    StripPrefix(prefix, digits);
  }

  /** The same head in front of another number leaves exactly that number. */
  lemma HeadStable(head: string, digits: string, other: string) returns (prefix: string)
    requires digits != [] && IsDigit(digits[0]) && other != [] && IsDigit(other[0])
    requires digits == StripV(TrimStart(head + digits))
    ensures prefix == "" || prefix == "v"
    ensures TrimStart(head + other) == prefix + other && StripV(TrimStart(head + other)) == other
  {
    var blank;
    blank, prefix := HeadShape(head, digits);
    TrimBeforeNumber(blank, prefix, other);
  }

  lemma HeadStrips(head: string, digits: string, other: string)
    requires digits != [] && IsDigit(digits[0]) && other != [] && IsDigit(other[0])
    requires digits == StripV(TrimStart(head + digits))
    ensures StripV(TrimStart(head + other)) == other
  {
    var prefix := HeadStable(head, digits, other);
  }

  lemma HeadStableUnspaced(head: string, digits: string, other: string)
    requires digits != [] && IsDigit(digits[0]) && other != [] && IsDigit(other[0])
    requires digits == StripV(head + digits)
    ensures StripV(head + other) == other
    ensures head == "" || head == "v"
  {
    PrefixOf(head, digits);
    StripPrefix(head, other);
  }

  /** How many characters the operator itself takes. */
  function OperatorWidth(text: string): (n: nat)
    ensures n <= |text|
  {
    if |text| >= 2 && text[0] == '>' && text[1] == '=' then 2
    else if text != [] && text[0] in {'\U{2265}', '<', '=', '~', '^'} then 1
    else 0
  }

  lemma OperatorRest(text: string)
    ensures OperatorWidth(text) == 0 ==> Operator(text).0 == Caret
    ensures var (kind, raw) := Operator(text);
      raw == if kind in {AtLeast, LessThan, Exact} then TrimStart(text[OperatorWidth(text)..])
             else text[OperatorWidth(text)..]
  {
  }

  /** Two texts that start alike as far as the operator goes, and then with a
      character no operator contains, have the same operator. */
  lemma SameOperator(text: string, other: string)
    requires var n := OperatorWidth(text);
      n <= |other| && text[..n] == other[..n] && n < |other|
    requires OperatorWidth(text) == 0 ==> IsDigit(other[0]) || other[0] == 'v'
    ensures OperatorWidth(other) == OperatorWidth(text)
    ensures Operator(other).0 == Operator(text).0
  {
    var n := OperatorWidth(text);
    if n > 0 {
      assert text[0] == text[..n][0] == other[..n][0] == other[0];
    }
    if n == 2 {
      assert text[1] == text[..n][1] == other[..n][1] == other[1];
    }
  }

  /** Where the digits of an operator clause begin. */
  function HeadLength(text: string): (n: nat)
    ensures n <= |text|
  {
    |text| - |StripV(Operator(text).1)|
  }

  lemma CutInHead(head: string, rest: string, n: nat)
    requires n <= |head|
    ensures (head + rest)[n..] == head[n..] + rest && (head + rest)[..n] == head[..n]
  {
  }

  lemma SuffixOfSuffix(text: string, n: nat, m: nat)
    requires n <= m <= |text|
    ensures text[n..][m - n..] == text[m..] && text == text[..m] + text[m..]
  {
  }

  lemma StripIsSuffix(raw: string)
    ensures |StripV(raw)| <= |raw| && StripV(raw) == raw[|raw| - |StripV(raw)|..]
  {
  }

  lemma OperatorSuffix(text: string)
    ensures var digits := StripV(Operator(text).1);
      HeadLength(text) >= OperatorWidth(text) && text == text[..HeadLength(text)] + digits
  {
    hide Operator, OperatorWidth, TrimStart, StripV;
    var n := OperatorWidth(text);
    OperatorRest(text);
    TrimStartParts(text[n..]);
    var raw := Operator(text).1;
    assert raw == text[|text| - |raw|..];
    StripIsSuffix(raw);
    SuffixOfSuffix(text, |text| - |raw|, |text| - |StripV(raw)|);
  }

  /** Putting another number behind the same head keeps the operator. */
  lemma OperatorKept(text: string, other: string) returns (prefix: string)
    requires NumberText(other)
    requires var digits := StripV(Operator(text).1);
      digits != [] && IsDigit(digits[0])
    ensures (prefix == "" || prefix == "v") && |prefix| <= HeadLength(text)
    ensures Operator(text[..HeadLength(text)] + other) == (Operator(text).0, prefix + other)
  {
    hide Operator, OperatorWidth, TrimStart, StripV, HeadLength;
    var digits := StripV(Operator(text).1);
    var head := text[..HeadLength(text)];
    var n := OperatorWidth(text);
    var text' := head + other;
    OperatorSuffix(text);
    OperatorRest(text);
    CutInHead(head, digits, n);
    CutInHead(head, other, n);
    if Operator(text).0 in {AtLeast, LessThan, Exact} {
      prefix := HeadStable(head[n..], digits, other);
    } else {
      HeadStableUnspaced(head[n..], digits, other);
      prefix := head[n..];
    }
    assert n == 0 ==> text[n..] == text && text'[n..] == text';
    SameOperator(text, text');
    OperatorRest(text');
  }

  // ---- What a parsed clause looks like ----

  /** Numbers in range and inside the clause's text, the number an edit would
      replace standing at its end, and the interval the operator gives it. */
  ghost predicate Shaped(c: Clause, text: string, offset: nat) {
    && 1 <= c.lower.precision <= 3
    && offset <= c.lower.start <= c.lower.end <= offset + |text|
    && (c.kind != Hyphen ==>
          c.upper == None && c.lower.end == offset + |text| && OperatorClause(c.kind, c.lower) == Ok(c))
    && (c.kind == Hyphen ==>
          && c.upper.Some? && 1 <= c.upper.value.precision <= 3
          && offset <= c.upper.value.start <= c.upper.value.end == offset + |text|
          && HyphenClause(c.lower, c.upper.value) == c)
  }

  lemma ClauseShape(text: string, offset: nat)
    requires ClauseOf(text, offset).Ok?
    ensures Shaped(ClauseOf(text, offset).value, text, offset)
  {
    var dash := IndexOf(text, '-');
    if dash < |text| {
      var lo, hi := text[..dash], text[dash + 1..];
      NumberShape(TrimEnd(lo), offset);
      NumberShape(TrimStart(hi), offset + |lo| + 1 + |hi| - |TrimStart(hi)|);
    } else {
      var raw := Operator(text).1;
      NumberShape(raw, offset + |text| - |raw|);
    }
  }

  /** The same clause, standing somewhere else. */
  ghost predicate SameClause(a: Clause, b: Clause) {
    && a.kind == b.kind && a.interval == b.interval
    && a.lower.version == b.lower.version && a.lower.precision == b.lower.precision
    && a.upper.Some? == b.upper.Some?
    && (a.upper.Some? ==>
          a.upper.value.version == b.upper.value.version && a.upper.value.precision == b.upper.value.precision)
  }

  /** Where a clause stands does not change what it means. */
  lemma OffsetIrrelevant(text: string, here: nat, there: nat)
    requires ClauseOf(text, here).Ok?
    ensures ClauseOf(text, there).Ok?
    ensures SameClause(ClauseOf(text, here).value, ClauseOf(text, there).value)
  {
  }

  // ---- What an edited clause parses to ----

  lemma NoDash(text: string, k: nat, other: string)
    requires k <= |text| && IndexOf(text, '-') == |text| && NumberText(other)
    ensures IndexOf(text[..k] + other, '-') == |text[..k] + other|
  {
    IndexOfFinds(text, '-');
    var t := text[..k] + other;
    assert text[..|text|] == text;
    assert '-' !in t;
    assert t[..|t|] == t;
    IndexOfAt(t, '-', |t|);
  }

  lemma NoDashDecides(text: string, offset: nat, c: Result<Clause, ParseError>)
    requires IndexOf(text, '-') == |text| && OperatorOf(text, offset) == c
    ensures ClauseOf(text, offset) == c
  {
  }

  lemma DashDecides(text: string, offset: nat, dash: nat, lo: string, hi: string, c: Result<Clause, ParseError>)
    requires IndexOf(text, '-') == dash && dash < |text|
    requires lo == text[..dash] && hi == text[dash + 1..] && HyphenOf(lo, hi, offset) == c
    ensures ClauseOf(text, offset) == c
  {
  }

  lemma KindDecides(text: string, offset: nat)
    requires ClauseOf(text, offset).Ok?
    ensures var dash := IndexOf(text, '-');
      if ClauseOf(text, offset).value.kind == Hyphen then
        dash < |text| && HyphenOf(text[..dash], text[dash + 1..], offset) == ClauseOf(text, offset)
      else
        dash == |text| && OperatorOf(text, offset) == ClauseOf(text, offset)
  {
  }

  lemma OperatorDecides(text: string, offset: nat, kind: Kind, raw: string, n: Number)
    requires Operator(text) == (kind, raw) && NumberOf(raw, offset + |text| - |raw|) == Ok(n)
    requires kind != Hyphen && 1 <= n.precision <= 3
    ensures OperatorOf(text, offset) == OperatorClause(kind, n)
  {
  }

  /** Rewriting the number of an operator clause keeps the operator and gives the
      clause of the new number. */
  lemma OperatorRewritten(text: string, there: nat, v: Version, precision: nat)
    requires 1 <= precision <= 3
    requires var digits := StripV(Operator(text).1);
      digits != [] && IsDigit(digits[0])
    ensures Operator(text).0 != Hyphen
    ensures var a := HeadLength(text);
      var r := FormatVersion(v, precision);
      OperatorOf(text[..a] + r, there)
      == OperatorClause(Operator(text).0, Number(Truncate(v, precision), precision, there + a, there + a + |r|))
  {
    hide NumberOf, FormatVersion, OperatorOf, OperatorClause, Operator, HeadLength;
    var a := HeadLength(text);
    var r := FormatVersion(v, precision);
    WrittenIsNumberText(v, precision);
    var prefix := OperatorKept(text, r);
    StripPrefix(prefix, r);
    var t := text[..a] + r;
    WrittenNumber(prefix + r, v, precision, there + |t| - |prefix + r|);
    OperatorDecides(t, there, Operator(text).0, prefix + r,
                    Number(Truncate(v, precision), precision, there + a, there + a + |r|));
  }

  lemma OperatorParts(text: string, offset: nat)
    requires OperatorOf(text, offset).Ok?
    ensures var c := OperatorOf(text, offset).value;
      var digits := StripV(Operator(text).1);
      && digits != [] && IsDigit(digits[0])
      && c.kind == Operator(text).0 && c.lower.start == offset + HeadLength(text)
  {
    var raw := Operator(text).1;
    NumberShape(raw, offset + |text| - |raw|);
  }

  lemma OperatorBefore(text: string, here: nat)
    requires ClauseOf(text, here).Ok? && ClauseOf(text, here).value.kind != Hyphen
    ensures IndexOf(text, '-') == |text|
    ensures var c := ClauseOf(text, here).value;
      var digits := StripV(Operator(text).1);
      && digits != [] && IsDigit(digits[0])
      && c.kind == Operator(text).0 && c.lower.start == here + HeadLength(text)
  {
    KindDecides(text, here);
    OperatorParts(text, here);
  }

  lemma OperatorAfter(text: string, there: nat, c: Result<Clause, ParseError>, v: Version, precision: nat)
    requires 1 <= precision <= 3 && IndexOf(text, '-') == |text|
    requires OperatorOf(text[..HeadLength(text)] + FormatVersion(v, precision), there) == c
    ensures ClauseOf(text[..HeadLength(text)] + FormatVersion(v, precision), there) == c
  {
    var r := FormatVersion(v, precision);
    WrittenIsNumberText(v, precision);
    NoDash(text, HeadLength(text), r);
    NoDashDecides(text[..HeadLength(text)] + r, there, c);
  }

  lemma OperatorEdited(text: string, here: nat, there: nat, v: Version, precision: nat)
    requires 1 <= precision <= 3
    requires ClauseOf(text, here).Ok? && ClauseOf(text, here).value.kind != Hyphen
    ensures var c := ClauseOf(text, here).value;
      var a := HeadLength(text);
      var r := FormatVersion(v, precision);
      && c.lower.start == here + a
      && ClauseOf(text[..a] + r, there)
         == OperatorClause(c.kind, Number(Truncate(v, precision), precision, there + a, there + a + |r|))
  {
    OperatorBefore(text, here);
    OperatorRewritten(text, there, v, precision);
    OperatorAfter(text, there, OperatorOf(text[..HeadLength(text)] + FormatVersion(v, precision), there), v, precision);
  }

  lemma HyphenDecides(lo: string, hi: string, offset: nat, lower: Number, upper: Result<Number, ParseError>)
    requires lo != [] && IsSpace(lo[|lo| - 1]) && hi != [] && IsSpace(hi[0])
    requires NumberOf(TrimEnd(lo), offset) == Ok(lower)
    requires NumberOf(TrimStart(hi), offset + |lo| + 1 + (|hi| - |TrimStart(hi)|)) == upper
    ensures HyphenOf(lo, hi, offset) == RangeOf(Ok(lower), upper)
  {
  }

  lemma HyphenParts(lo: string, hi: string, offset: nat)
    requires HyphenOf(lo, hi, offset).Ok?
    ensures lo != [] && IsSpace(lo[|lo| - 1]) && hi != [] && IsSpace(hi[0])
    ensures var c := HyphenOf(lo, hi, offset).value;
      && NumberOf(TrimEnd(lo), offset) == Ok(c.lower)
      && var raw := TrimStart(hi);
      && NumberOf(raw, offset + |lo| + 1 + (|hi| - |raw|)).Ok?
      && c.upper == Some(NumberOf(raw, offset + |lo| + 1 + (|hi| - |raw|)).value)
  {
  }

  /** The upper side of a hyphen clause, cut before its digits. */
  lemma UpperHead(hi: string, r: string) returns (head: string)
    requires hi != [] && IsSpace(hi[0]) && NumberText(r)
    requires var digits := StripV(TrimStart(hi));
      digits != [] && IsDigit(digits[0])
    ensures head != [] && IsSpace(head[0]) && hi == head + StripV(TrimStart(hi))
    ensures StripV(TrimStart(head + r)) == r && |TrimStart(head + r)| <= |head + r|
  {
    TrimStartParts(hi);
    var raw := TrimStart(hi);
    var digits := StripV(raw);
    assert digits == raw[|raw| - |digits|..];
    head := hi[..|hi| - |digits|];
    assert hi == head + digits;
    HeadStrips(head, digits, r);
  }

  lemma HyphenBefore(lo: string, hi: string, here: nat) returns (head: string)
    requires HyphenOf(lo, hi, here).Ok?
    ensures lo != [] && IsSpace(lo[|lo| - 1]) && head != [] && IsSpace(head[0])
    ensures var c := HyphenOf(lo, hi, here).value;
      && NumberOf(TrimEnd(lo), here) == Ok(c.lower)
      && c.upper.Some? && c.upper.value.start == here + |lo| + 1 + |head|
    ensures var digits := StripV(TrimStart(hi));
      digits != [] && IsDigit(digits[0]) && hi == head + digits
  {
    HyphenParts(lo, hi, here);
    var before := TrimStart(hi);
    NumberShape(before, here + |lo| + 1 + (|hi| - |before|));
    WrittenIsNumberText(ZERO, 1);
    head := UpperHead(hi, FormatVersion(ZERO, 1));
  }

  lemma UpperReads(head: string, digits: string, base: nat, v: Version, precision: nat, r: string)
    requires 1 <= precision <= 3 && r == FormatVersion(v, precision)
    requires digits != [] && IsDigit(digits[0]) && digits == StripV(TrimStart(head + digits))
    ensures NumberOf(TrimStart(head + r), base + (|head + r| - |TrimStart(head + r)|))
         == Ok(Number(Truncate(v, precision), precision, base + |head|, base + |head| + |r|))
  {
    hide NumberOf, FormatVersion, TrimStart;
    WrittenIsNumberText(v, precision);
    HeadStrips(head, digits, r);
    var raw := TrimStart(head + r);
    WrittenNumber(raw, v, precision, base + (|head + r| - |raw|));
  }

  lemma HyphenAfter(lo: string, hi: string, there: nat, lower: Number, upper: Number)
    requires lo != [] && IsSpace(lo[|lo| - 1]) && hi != [] && IsSpace(hi[0])
    requires NumberOf(TrimEnd(lo), there) == Ok(lower) && 1 <= upper.precision <= 3
    requires NumberOf(TrimStart(hi), there + |lo| + 1 + (|hi| - |TrimStart(hi)|)) == Ok(upper)
    ensures HyphenOf(lo, hi, there) == Ok(HyphenClause(lower, upper))
  {
    HyphenDecides(lo, hi, there, lower, Ok(upper));
  }

  lemma HyphenRewritten(lo: string, hi: string, there: nat, v: Version, precision: nat, r: string) returns (head: string)
    requires 1 <= precision <= 3 && r == FormatVersion(v, precision)
    requires HyphenOf(lo, hi, there).Ok?
    ensures var c := HyphenOf(lo, hi, there).value;
      var o := there + |lo| + 1 + |head|;
      && c.upper.Some? && c.upper.value.start == o
      && hi == head + StripV(TrimStart(hi))
      && HyphenOf(lo, head + r, there) == Ok(HyphenClause(c.lower, Number(Truncate(v, precision), precision, o, o + |r|)))
  {
    hide HyphenOf, NumberOf, TrimStart, FormatVersion;
    head := HyphenBefore(lo, hi, there);
    var o := there + |lo| + 1 + |head|;
    UpperReads(head, StripV(TrimStart(hi)), there + |lo| + 1, v, precision, r);
    HyphenAfter(lo, head + r, there, HyphenOf(lo, hi, there).value.lower,
                Number(Truncate(v, precision), precision, o, o + |r|));
  }

  lemma JoinedAtDash(text: string, lo: string, hi: string, offset: nat, c: Result<Clause, ParseError>)
    requires text == lo + "-" + hi && '-' !in lo && HyphenOf(lo, hi, offset) == c
    ensures ClauseOf(text, offset) == c
  {
    assert text[..|lo|] == lo && text[|lo|] == '-' && text[|lo| + 1..] == hi;
    IndexOfAt(text, '-', |lo|);
    DashDecides(text, offset, |lo|, lo, hi, c);
  }

  lemma SplitAtDash(text: string, offset: nat) returns (lo: string, hi: string)
    requires ClauseOf(text, offset).Ok? && ClauseOf(text, offset).value.kind == Hyphen
    ensures text == lo + "-" + hi && '-' !in lo
    ensures HyphenOf(lo, hi, offset) == ClauseOf(text, offset)
  {
    KindDecides(text, offset);
    IndexOfFinds(text, '-');
    var dash := IndexOf(text, '-');
    lo, hi := text[..dash], text[dash + 1..];
  }

  lemma HyphenFront(text: string, there: nat, v: Version, precision: nat, r: string)
    returns (lo: string, head: string, digits: string)
    requires 1 <= precision <= 3 && r == FormatVersion(v, precision)
    requires ClauseOf(text, there).Ok? && ClauseOf(text, there).value.kind == Hyphen
    ensures text == lo + "-" + (head + digits) && '-' !in lo
    ensures var c := ClauseOf(text, there).value;
      var o := there + |lo| + 1 + |head|;
      && c.upper.Some? && c.upper.value.start == o
      && HyphenOf(lo, head + r, there)
         == Ok(HyphenClause(c.lower, Number(Truncate(v, precision), precision, o, o + |r|)))
  {
    var hi;
    lo, hi := SplitAtDash(text, there);
    head := HyphenRewritten(lo, hi, there, v, precision, r);
    digits := StripV(TrimStart(hi));
  }

  /** Rewriting the upper bound of a hyphen clause keeps its lower bound. */
  lemma HyphenEdited(text: string, there: nat, c: Clause, v: Version, precision: nat, r: string)
    returns (front: string, digits: string)
    requires 1 <= precision <= 3 && r == FormatVersion(v, precision)
    requires ClauseOf(text, there) == Ok(c) && c.kind == Hyphen
    ensures text == front + digits && front != []
    ensures c.upper.Some? && c.upper.value.start == there + |front|
    ensures ClauseOf(front + r, there)
         == Ok(HyphenClause(c.lower, Number(Truncate(v, precision), precision, there + |front|, there + |front| + |r|)))
  {
    hide ClauseOf, HyphenOf, NumberOf, FormatVersion;
    var lo, head;
    lo, head, digits := HyphenFront(text, there, v, precision, r);
    front := lo + "-" + head;
    assert lo + "-" + (head + digits) == front + digits;
    assert front + r == lo + "-" + (head + r);
    var o := there + |front|;
    JoinedAtDash(front + r, lo, head + r, there,
                 Ok(HyphenClause(c.lower, Number(Truncate(v, precision), precision, o, o + |r|))));
  }
}
