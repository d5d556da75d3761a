/** The string operations the modelled code borrows from its standard library,
    over sequences of characters, with the laws that connect them: splitting and
    joining, trimming, decimal notation, and replacing a range. */
module Text {
  import opened Sequences

  // ---- Splitting and joining ----

  lemma {:induction false} IndexOfFinds(s: string, c: char)
    ensures c !in s[..IndexOf(s, c)]
    ensures IndexOf(s, c) < |s| ==> s[IndexOf(s, c)] == c
    decreases s
  {
    if s != [] && s[0] != c {
      IndexOfFinds(s[1..], c);
      var i := IndexOf(s, c);
      assert s[..i] == [s[0]] + s[1..][..i - 1];
    }
  }

  lemma {:induction false} IndexOfAt(s: string, c: char, i: nat)
    requires i <= |s| && c !in s[..i] && (i < |s| ==> s[i] == c)
    ensures IndexOf(s, c) == i
    decreases i
  {
    if i > 0 {
      assert s[0] in s[..i];
      assert s[..i] == [s[0]] + s[1..][..i - 1];
      IndexOfAt(s[1..], c, i - 1);
    }
  }

  function Split(s: string, separator: char): (parts: seq<string>)
    ensures |parts| >= 1
    decreases |s|
  {
    var i := IndexOf(s, separator);
    if i == |s| then [s] else [s[..i]] + Split(s[i + 1..], separator)
  }

  function Join(parts: seq<string>, separator: char): string
    requires |parts| >= 1
  {
    if |parts| == 1 then parts[0] else parts[0] + [separator] + Join(parts[1..], separator)
  }

  ghost predicate Separated(parts: seq<string>, separator: char) {
    forall i :: 0 <= i < |parts| ==> separator !in parts[i]
  }

  lemma {:induction false} SplitThenJoin(s: string, separator: char)
    ensures Join(Split(s, separator), separator) == s
    ensures Separated(Split(s, separator), separator)
    decreases |s|
  {
    IndexOfFinds(s, separator);
    var i := IndexOf(s, separator);
    if i < |s| {
      SplitThenJoin(s[i + 1..], separator);
      var rest := Split(s[i + 1..], separator);
      assert Split(s, separator)[1..] == rest;
      assert s == s[..i] + [separator] + s[i + 1..];
    } else {
      assert s[..i] == s;
    }
  }

  lemma {:induction false} JoinThenSplit(parts: seq<string>, separator: char)
    requires |parts| >= 1 && Separated(parts, separator)
    ensures Split(Join(parts, separator), separator) == parts
    decreases |parts|
  {
    var s := Join(parts, separator);
    var i := |parts[0]|;
    if |parts| == 1 {
      assert s[..i] == s;
      IndexOfAt(s, separator, i);
    } else {
      assert s[..i] == parts[0];
      assert s[i + 1..] == Join(parts[1..], separator);
      IndexOfAt(s, separator, i);
      JoinThenSplit(parts[1..], separator);
    }
  }

  /** Where part `k` begins in the joined text. */
  function Offset(parts: seq<string>, k: nat): (offset: nat)
    requires k <= |parts|
  {
    if k == 0 then 0 else |parts[0]| + 1 + Offset(parts[1..], k - 1)
  }

  function Replaced(s: string, start: nat, end: nat, insert: string): string
    requires start <= end <= |s|
  {
    s[..start] + insert + s[end..]
  }

  lemma {:induction false} OffsetBound(parts: seq<string>, k: nat)
    requires k < |parts|
    ensures Offset(parts, k) + |parts[k]| <= |Join(parts, ',')|
    decreases |parts|
  {
    if k > 0 {
      OffsetBound(parts[1..], k - 1);
    }
  }

  /** Replacing a range inside one part of a joined text edits that part alone. */
  lemma {:induction false} ReplaceInPart(parts: seq<string>, k: nat, start: nat, end: nat, insert: string)
    requires k < |parts| && start <= end <= |parts[k]|
    ensures Offset(parts, k) + end <= |Join(parts, ',')|
    ensures Replaced(Join(parts, ','), Offset(parts, k) + start, Offset(parts, k) + end, insert)
         == Join(parts[k := Replaced(parts[k], start, end, insert)], ',')
    decreases |parts|
  {
    OffsetBound(parts, k);
    var s := Join(parts, ',');
    var edited := parts[k := Replaced(parts[k], start, end, insert)];
    if k == 0 {
      if |parts| > 1 {
        assert edited[1..] == parts[1..];
      }
    } else {
      ReplaceInPart(parts[1..], k - 1, start, end, insert);
      assert edited[1..] == parts[1..][k - 1 := Replaced(parts[k], start, end, insert)];
      var skip := |parts[0]| + 1;
      var o := Offset(parts[1..], k - 1);
      var rest := Join(parts[1..], ',');
      assert s == parts[0] + [','] + rest;
      assert s[..skip + o + start] == parts[0] + [','] + rest[..o + start];
      assert s[skip + o + end..] == rest[o + end..];
    }
  }

  lemma {:induction false} JoinAppend(parts: seq<string>, last: string)
    requires |parts| >= 1
    ensures Join(parts + [last], ',') == Join(parts, ',') + [','] + last
    decreases |parts|
  {
    if |parts| > 1 {
      assert (parts + [last])[1..] == parts[1..] + [last];
      JoinAppend(parts[1..], last);
    } else {
      assert (parts + [last])[1..] == [last];
    }
  }

  // ---- Trimming ----

  /** Unicode's White_Space property. */
  predicate IsSpace(c: char) {
    || '\U{0009}' <= c <= '\U{000D}' || c == ' ' || c == '\U{0085}' || c == '\U{00A0}'
    || c == '\U{1680}' || '\U{2000}' <= c <= '\U{200A}' || c == '\U{2028}' || c == '\U{2029}'
    || c == '\U{202F}' || c == '\U{205F}' || c == '\U{3000}'
  }

  /** The twenty-five characters with that property. */
  const WHITE_SPACE: set<char> := {
    '\U{0009}', '\U{000A}', '\U{000B}', '\U{000C}', '\U{000D}', ' ', '\U{0085}', '\U{00A0}', '\U{1680}',
    '\U{2000}', '\U{2001}', '\U{2002}', '\U{2003}', '\U{2004}', '\U{2005}', '\U{2006}', '\U{2007}', '\U{2008}',
    '\U{2009}', '\U{200A}', '\U{2028}', '\U{2029}', '\U{202F}', '\U{205F}', '\U{3000}'}

  lemma WhiteSpaceIs(c: char)
    ensures IsSpace(c) <==> c in WHITE_SPACE
  {
  }

  ghost predicate Blank(s: string) {
    forall i :: 0 <= i < |s| ==> IsSpace(s[i])
  }

  function TrimStart(s: string): (t: string)
    ensures |t| <= |s|
  {
    if s != [] && IsSpace(s[0]) then TrimStart(s[1..]) else s
  }

  function TrimEnd(s: string): (t: string)
    ensures |t| <= |s|
  {
    if s != [] && IsSpace(s[|s| - 1]) then TrimEnd(s[..|s| - 1]) else s
  }

  lemma {:induction false} TrimStartParts(s: string)
    ensures var t := TrimStart(s);
      && t == s[|s| - |t|..]
      && Blank(s[..|s| - |t|])
      && (t != [] ==> !IsSpace(t[0]))
    decreases s
  {
    if s != [] && IsSpace(s[0]) {
      TrimStartParts(s[1..]);
      var t := TrimStart(s);
      assert s[..|s| - |t|] == [s[0]] + s[1..][..|s| - 1 - |t|];
    }
  }

  lemma {:induction false} TrimEndParts(s: string)
    ensures var t := TrimEnd(s);
      && t == s[..|t|]
      && Blank(s[|t|..])
      && (t != [] ==> !IsSpace(t[|t| - 1]))
    decreases s
  {
    if s != [] && IsSpace(s[|s| - 1]) {
      TrimEndParts(s[..|s| - 1]);
      var t := TrimEnd(s);
      assert s[|t|..] == s[..|s| - 1][|t|..] + [s[|s| - 1]];
    }
  }

  function Trim(s: string): (t: string)
    ensures |t| <= |s|
  {
    TrimEnd(TrimStart(s))
  }

  /** The number of leading blanks. */
  function Lead(s: string): (n: nat)
    ensures n <= |s|
  {
    |s| - |TrimStart(s)|
  }

  lemma {:induction false} TrimStartAt(blank: string, core: string)
    requires Blank(blank) && (core != [] ==> !IsSpace(core[0]))
    ensures TrimStart(blank + core) == core
    decreases blank
  {
    if blank == [] {
      assert blank + core == core;
    } else {
      assert (blank + core)[1..] == blank[1..] + core;
      TrimStartAt(blank[1..], core);
    }
  }

  lemma {:induction false} TrimEndAt(core: string, blank: string)
    requires Blank(blank) && (core != [] ==> !IsSpace(core[|core| - 1]))
    ensures TrimEnd(core + blank) == core
    decreases blank
  {
    if blank == [] {
      assert core + blank == core;
    } else {
      var s := core + blank;
      assert s[..|s| - 1] == core + blank[..|blank| - 1];
      TrimEndAt(core, blank[..|blank| - 1]);
    }
  }

  lemma SplitThree(s: string, n: nat, t: string, m: nat)
    requires n <= |s| && t == s[n..] && m <= |t|
    ensures s == s[..n] + t[..m] + s[n + m..] && s[n + m..] == t[m..]
  {
  }

  /** A string with visible content is blanks, its trimmed core, and blanks. */
  lemma {:induction false} TrimParts(s: string)
    requires Trim(s) != []
    ensures Lead(s) + |Trim(s)| <= |s|
    ensures s == s[..Lead(s)] + Trim(s) + s[Lead(s) + |Trim(s)|..]
    ensures Blank(s[..Lead(s)]) && Blank(s[Lead(s) + |Trim(s)|..])
    ensures !IsSpace(Trim(s)[0]) && !IsSpace(Trim(s)[|Trim(s)| - 1])
  {
    TrimStartParts(s);
    TrimEndParts(TrimStart(s));
    SplitThree(s, Lead(s), TrimStart(s), |Trim(s)|);
  }

  lemma {:induction false} TrimAround(lead: string, core: string, trail: string)
    requires Blank(lead) && Blank(trail)
    requires core != [] && !IsSpace(core[0]) && !IsSpace(core[|core| - 1])
    ensures Trim(lead + core + trail) == core && Lead(lead + core + trail) == |lead|
  {
    assert lead + core + trail == lead + (core + trail);
    TrimStartAt(lead, core + trail);
    TrimEndAt(core, trail);
  }

  // ---- Decimal notation ----

  predicate IsDigit(c: char) {
    '0' <= c <= '9'
  }

  /** A nonempty string of digits. */
  predicate IsNumeral(s: string) {
    s != [] && forall i :: 0 <= i < |s| ==> IsDigit(s[i])
  }

  function FromDecimal(s: string): nat
    requires forall i :: 0 <= i < |s| ==> IsDigit(s[i])
  {
    if s == [] then 0
    else
      assert IsDigit(s[|s| - 1]);
      10 * FromDecimal(s[..|s| - 1]) + (s[|s| - 1] as int - '0' as int)
  }

  function ToDecimal(n: nat): (s: string)
    ensures IsNumeral(s)
  {
    var last := ['0' + (n % 10) as char];
    if n < 10 then last else ToDecimal(n / 10) + last
  }

  lemma {:induction false} DecimalRoundTrip(n: nat)
    ensures FromDecimal(ToDecimal(n)) == n
    decreases n
  {
    var s := ToDecimal(n);
    var last := '0' + (n % 10) as char;
    assert last as int - '0' as int == n % 10;
    if n < 10 {
      assert s == [last] && s[..0] == [];
    } else {
      assert s[..|s| - 1] == ToDecimal(n / 10);
      DecimalRoundTrip(n / 10);
    }
  }
}
