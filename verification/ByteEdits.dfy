/** The edits of Edits.dfy as the program has them, on bytes of UTF-8
    (crates/fatou-parser/src/parser/edit.rs): which byte ranges fit, what replacing
    one does, and the byte-wise recovery of an edit, with its clamping to character
    boundaries, as the recovery on characters. */
module ByteEdits {
  import opened Edits
  import opened Utf8

  /** Replace the bytes from `start` to `end`. */
  datatype ByteEdit = ByteEdit(start: nat, end: nat, insert: seq<Byte>)

  predicate ByteFits(text: string, e: ByteEdit) {
    e.start <= e.end <= |Bytes(text)| && IsBoundary(Bytes(text), e.start) && IsBoundary(Bytes(text), e.end)
  }

  /** An edit on characters at its byte offsets. */
  function AtBytes(text: string, e: Edit): ByteEdit
    requires Fits(text, e)
  {
    ByteEdit(ByteLength(text[..e.start]), ByteLength(text[..e.end]), Bytes(e.insert))
  }

  lemma PrefixGrows(text: string, i: nat, j: nat)
    requires i <= j <= |text|
    ensures ByteLength(text[..j]) == ByteLength(text[..i]) + ByteLength(text[i..j])
    ensures i < j ==> ByteLength(text[i..j]) > 0
  {
    assert text[..j] == text[..i] + text[i..j];
    BytesConcat(text[..i], text[i..j]);
  }

  /** The byte edits that fit a text are those of the character edits that do. */
  lemma FittingEdits(text: string, e: ByteEdit, insert: string)
    requires e.insert == Bytes(insert)
    ensures ByteFits(text, e) <==> exists c: Edit :: c.insert == insert && Fits(text, c) && AtBytes(text, c) == e
  {
    hide Bytes, ByteLength, IsBoundary;
    if ByteFits(text, e) {
      BoundariesArePrefixes(text, e.start);
      BoundariesArePrefixes(text, e.end);
      var i :| 0 <= i <= |text| && ByteLength(text[..i]) == e.start;
      var j :| 0 <= j <= |text| && ByteLength(text[..j]) == e.end;
      if j < i {
        PrefixGrows(text, j, i);
      }
      assert AtBytes(text, Edit(i, j, insert)) == e;
    }
    if c: Edit :| c.insert == insert && Fits(text, c) && AtBytes(text, c) == e {
      PrefixGrows(text, c.start, c.end);
      SplitBytes(text, c.start);
      SplitBytes(text, c.end);
      BoundariesArePrefixes(text, e.start);
      BoundariesArePrefixes(text, e.end);
    }
  }

  /** Replacing the bytes gives the bytes of the edited text. */
  lemma ReplacedBytes(text: string, c: Edit)
    requires Fits(text, c)
    ensures var e := AtBytes(text, c);
      && e.start <= e.end <= |Bytes(text)|
      && Bytes(Apply(text, c)) == Bytes(text)[..e.start] + e.insert + Bytes(text)[e.end..]
  {
    hide Bytes, ByteLength;
    PrefixGrows(text, c.start, c.end);
    SplitBytes(text, c.start);
    SplitBytes(text, c.end);
    BytesConcat(text[..c.start] + c.insert, text[c.end..]);
    BytesConcat(text[..c.start], c.insert);
  }

  // ---- Common ends, byte by byte ----

  lemma {:induction false} CommonPrefixAfter<T>(p: seq<T>, a: seq<T>, b: seq<T>)
    ensures CommonPrefix(p + a, p + b) == |p| + CommonPrefix(a, b)
    decreases |p|
  {
    if p == [] {
      assert p + a == a && p + b == b;
    } else {
      assert (p + a)[1..] == p[1..] + a && (p + b)[1..] == p[1..] + b;
      CommonPrefixAfter(p[1..], a, b);
    }
  }

  lemma {:induction false} CommonSuffixBefore<T>(p: seq<T>, a: seq<T>, b: seq<T>)
    ensures CommonSuffix(a + p, b + p) == |p| + CommonSuffix(a, b)
    decreases |p|
  {
    if p == [] {
      assert a + p == a && b + p == b;
    } else {
      var init := p[..|p| - 1];
      assert (a + p)[..|a + p| - 1] == a + init && (b + p)[..|b + p| - 1] == b + init;
      CommonSuffixBefore(init, a, b);
    }
  }

  /** Different characters differ before either of them ends. */
  lemma DifferWithin(c: char, d: char, x: seq<Byte>, y: seq<Byte>)
    requires c != d
    ensures CommonPrefix(Encoded(c) + x, Encoded(d) + y) < Width(c)
  {
    var a, b := Encoded(c) + x, Encoded(d) + y;
    var n := CommonPrefix(a, b);
    if n >= Width(c) {
      assert a[0] == b[0];
      FirstByteDecides(c, d);
      assert forall k :: 0 <= k < Width(c) ==> a[k] == Encoded(c)[k] && b[k] == Encoded(d)[k];
      assert Encoded(c) == Encoded(d);
      EncodedInjective(c, d);
    }
  }

  /** Counted from the end, too. */
  lemma DifferBackwards(c: char, d: char, x: seq<Byte>, y: seq<Byte>)
    requires c != d
    ensures CommonSuffix(x + Encoded(c), y + Encoded(d)) < Width(c)
  {
    var a, b := x + Encoded(c), y + Encoded(d);
    var m := CommonSuffix(a, b);
    hide CommonSuffix, Encoded, Width, IsContinuation;
    EncodedShape(c);
    EncodedShape(d);
    assert forall k: nat :: k < Width(c) ==> FromEnd(a, k) == Encoded(c)[Width(c) - 1 - k];
    assert forall k: nat :: k < Width(d) ==> FromEnd(b, k) == Encoded(d)[Width(d) - 1 - k];
    if m >= Width(c) {
      var last := (if Width(c) < Width(d) then Width(c) else Width(d)) - 1;
      assert FromEnd(a, last) == FromEnd(b, last);
      assert IsContinuation(FromEnd(a, last)) <==> last < Width(c) - 1;
      assert IsContinuation(FromEnd(b, last)) <==> last < Width(d) - 1;
      forall k | 0 <= k < Width(c)
        ensures Encoded(c)[k] == Encoded(d)[k]
      {
        assert FromEnd(a, Width(c) - 1 - k) == FromEnd(b, Width(c) - 1 - k);
      }
      assert Encoded(c) == Encoded(d);
      EncodedInjective(c, d);
    }
  }

  ghost predicate Uncut(bytes: seq<Byte>, from: nat, to: nat) {
    forall i :: from < i <= to ==> !IsBoundary(bytes, i)
  }

  predicate CutBefore(bytes: seq<Byte>, i: nat) {
    i <= |bytes| && IsBoundary(bytes, |bytes| - i)
  }

  ghost predicate UncutBackwards(bytes: seq<Byte>, from: nat, to: nat) {
    forall i: nat :: from < i <= to ==> !CutBefore(bytes, i)
  }

  lemma UncutAfter(c: char, rest: string, from: nat, to: nat)
    requires Uncut(Bytes(rest), from, to) && to <= |Bytes(rest)|
    ensures Uncut(Encoded(c) + Bytes(rest), Width(c) + from, Width(c) + to)
  {
    OneCharacter(c);
    hide Bytes, Encoded, IsBoundary;
    forall i | Width(c) + from < i <= Width(c) + to
      ensures !IsBoundary(Encoded(c) + Bytes(rest), i)
    {
      BoundaryAfter([c], rest, i - Width(c));
    }
  }

  lemma UncutCharacter(c: char, rest: string, to: nat)
    requires to < Width(c)
    ensures Uncut(Encoded(c) + Bytes(rest), 0, to)
  {
    OneCharacter(c);
    hide Bytes, Encoded, IsBoundary;
    forall i | 0 < i <= to
      ensures !IsBoundary(Encoded(c) + Bytes(rest), i)
    {
      InsideCharacter(c, i);
      BoundaryBefore([c], rest, i);
    }
  }

  lemma UncutBackwardsBefore(init: string, c: char, from: nat, to: nat)
    requires UncutBackwards(Bytes(init), from, to) && to <= |Bytes(init)|
    ensures UncutBackwards(Bytes(init) + Encoded(c), Width(c) + from, Width(c) + to)
  {
    OneCharacter(c);
    hide Bytes, Encoded, IsBoundary;
    forall i: nat | Width(c) + from < i <= Width(c) + to
      ensures !CutBefore(Bytes(init) + Encoded(c), i)
    {
      assert !CutBefore(Bytes(init), i - Width(c));
      BoundaryBefore(init, [c], |Bytes(init)| - (i - Width(c)));
    }
  }

  lemma UncutBackwardsCharacter(init: string, c: char, to: nat)
    requires to < Width(c)
    ensures UncutBackwards(Bytes(init) + Encoded(c), 0, to)
  {
    OneCharacter(c);
    hide Bytes, Encoded, IsBoundary;
    forall i: nat | 0 < i <= to
      ensures !CutBefore(Bytes(init) + Encoded(c), i)
    {
      InsideCharacter(c, Width(c) - i);
      BoundaryAfter(init, [c], Width(c) - i);
    }
  }

  /** The common bytes at the start end inside the first character that differs. */
  lemma {:induction false} PrefixBytes(a: string, b: string)
    ensures var chars, n := CommonPrefix(a, b), CommonPrefix(Bytes(a), Bytes(b));
      ByteLength(a[..chars]) <= n && Uncut(Bytes(a), ByteLength(a[..chars]), n)
    decreases |a|
  {
    hide Encoded, IsBoundary;
    var chars := CommonPrefix(a, b);
    if a == [] || b == [] {
      assert a[..0] == [];
      hide CommonPrefix;
    } else if a[0] == b[0] {
      var c := a[0];
      PrefixBytes(a[1..], b[1..]);
      CommonPrefixAfter(Encoded(c), Bytes(a[1..]), Bytes(b[1..]));
      UncutAfter(c, a[1..], ByteLength(a[1..][..chars - 1]), CommonPrefix(Bytes(a[1..]), Bytes(b[1..])));
      assert a[..chars] == [c] + a[1..][..chars - 1];
      BytesConcat([c], a[1..][..chars - 1]);
      OneCharacter(c);
      hide Uncut, CommonPrefix, ByteLength;
    } else {
      assert a[..0] == [];
      DifferWithin(a[0], b[0], Bytes(a[1..]), Bytes(b[1..]));
      UncutCharacter(a[0], a[1..], CommonPrefix(Bytes(a), Bytes(b)));
      hide CommonPrefix;
    }
  }

  ghost predicate SuffixMatches(a: string, b: string) {
    var chars, m := CommonSuffix(a, b), CommonSuffix(Bytes(a), Bytes(b));
    ByteLength(a[|a| - chars..]) <= m && UncutBackwards(Bytes(a), ByteLength(a[|a| - chars..]), m)
  }

  lemma SuffixSame(x: string, y: string, c: char)
    requires SuffixMatches(x, y)
    ensures SuffixMatches(x + [c], y + [c])
  {
    hide Encoded, IsBoundary, UncutBackwards, CommonSuffix, ByteLength, Bytes;
    BytesConcat(x, [c]);
    BytesConcat(y, [c]);
    OneCharacter(c);
    CommonSuffixBefore(Encoded(c), Bytes(x), Bytes(y));
    CommonSuffixBefore([c], x, y);
    var chars := CommonSuffix(x, y);
    var tail := x[|x| - chars..];
    UncutBackwardsBefore(x, c, ByteLength(tail), CommonSuffix(Bytes(x), Bytes(y)));
    assert (x + [c])[|x| - chars..] == tail + [c];
    BytesConcat(tail, [c]);
  }

  lemma SuffixDiffers(x: string, c: char, y: string, d: char)
    requires c != d
    ensures SuffixMatches(x + [c], y + [d])
  {
    var a, b := x + [c], y + [d];
    assert CommonSuffix(a, b) == 0 && a[|a|..] == [];
    hide Encoded, IsBoundary, Bytes, UncutBackwards;
    BytesConcat(x, [c]);
    BytesConcat(y, [d]);
    OneCharacter(c);
    OneCharacter(d);
    DifferBackwards(c, d, Bytes(x), Bytes(y));
    UncutBackwardsCharacter(x, c, CommonSuffix(Bytes(a), Bytes(b)));
    hide CommonSuffix;
  }

  /** The common bytes at the end start inside the last character that differs. */
  lemma {:induction false} SuffixBytes(a: string, b: string)
    ensures SuffixMatches(a, b)
    decreases |a|
  {
    if a == [] || b == [] {
      assert a[|a|..] == [];
    } else {
      hide SuffixMatches;
      var x, c := a[..|a| - 1], a[|a| - 1];
      var y, d := b[..|b| - 1], b[|b| - 1];
      assert a == x + [c] && b == y + [d];
      if c == d {
        SuffixBytes(x, y);
        SuffixSame(x, y, c);
      } else {
        SuffixDiffers(x, c, y, d);
      }
    }
  }

  // ---- Recovering an edit from bytes ----

  /** Where the first `chars` characters end there is a boundary, and none lies
      between there and `n`: clamping ends there. */
  lemma ClampsToPrefix(text: string, chars: nat, n: nat, at: nat)
    requires chars <= |text| && ByteLength(text[..chars]) <= at <= n <= |Bytes(text)|
    requires Uncut(Bytes(text), ByteLength(text[..chars]), n)
    ensures IsBoundary(Bytes(text), at) <==> at == ByteLength(text[..chars])
  {
    BoundariesArePrefixes(text, at);
    hide Bytes, ByteLength, IsBoundary;
  }

  lemma ClampsToSuffix(text: string, k: nat, chars: nat, m: nat, at: nat)
    requires k + chars <= |text|
    requires var rest := text[k..];
      ByteLength(rest[|rest| - chars..]) <= at <= m <= |Bytes(rest)|
      && UncutBackwards(Bytes(rest), ByteLength(rest[|rest| - chars..]), m)
    ensures at <= |Bytes(text)|
    ensures IsBoundary(Bytes(text), |Bytes(text)| - at) <==> at == ByteLength(text[k..][|text[k..]| - chars..])
  {
    hide Bytes, ByteLength, IsBoundary;
    var rest := text[k..];
    SplitBytes(text, k);
    BoundaryAfter(text[..k], rest, |Bytes(rest)| - at);
    BoundariesArePrefixes(rest, |Bytes(rest)| - at);
    SplitBytes(rest, |rest| - chars);
    assert at > ByteLength(rest[|rest| - chars..]) ==> !CutBefore(Bytes(rest), at);
  }

  lemma TailIsCut(text: string, chars: nat)
    requires chars <= |text|
    ensures var tail := ByteLength(text[|text| - chars..]);
      tail <= |Bytes(text)| && IsBoundary(Bytes(text), |Bytes(text)| - tail)
  {
    hide Bytes, ByteLength, IsBoundary;
    SplitBytes(text, |text| - chars);
    BoundariesArePrefixes(text, ByteLength(text[..|text| - chars]));
  }

  /** The recovered edit, counted in bytes. */
  lemma ByteOffsets(before: string, after: string, k: nat, chars: nat, prefix: nat, suffix: nat)
    requires k + chars <= |before| && k + chars <= |after|
    requires prefix == ByteLength(before[..k]) && prefix == ByteLength(after[..k])
    requires suffix == ByteLength(before[|before| - chars..]) && suffix == ByteLength(after[|after| - chars..])
    ensures prefix + suffix <= |Bytes(before)| && prefix + suffix <= |Bytes(after)|
    ensures AtBytes(before, Edit(k, |before| - chars, after[k..|after| - chars])) ==
      ByteEdit(prefix, |Bytes(before)| - suffix, Bytes(after)[prefix..|Bytes(after)| - suffix])
  {
    hide Bytes, ByteLength;
    EndOffset(before, k, chars);
    MiddleBytes(after, k, chars);
  }

  lemma EndOffset(text: string, k: nat, chars: nat)
    requires k + chars <= |text|
    ensures ByteLength(text[..|text| - chars]) == |Bytes(text)| - ByteLength(text[|text| - chars..])
    ensures ByteLength(text[..k]) <= ByteLength(text[..|text| - chars])
  {
    hide Bytes, ByteLength;
    SplitBytes(text, |text| - chars);
    PrefixGrows(text, k, |text| - chars);
  }

  lemma MiddleBytes(text: string, k: nat, chars: nat)
    requires k + chars <= |text|
    ensures var prefix, suffix := ByteLength(text[..k]), ByteLength(text[|text| - chars..]);
      prefix + suffix <= |Bytes(text)| && Bytes(text[k..|text| - chars]) == Bytes(text)[prefix..|Bytes(text)| - suffix]
  {
    hide Bytes, ByteLength;
    SplitInThree(text, k, |text| - chars);
    Middle(Bytes(text), Bytes(text[..k]), Bytes(text[k..|text| - chars]), Bytes(text[|text| - chars..]),
           ByteLength(text[..k]), ByteLength(text[|text| - chars..]));
  }

  lemma SplitInThree(text: string, i: nat, j: nat)
    requires i <= j <= |text|
    ensures Bytes(text) == Bytes(text[..i]) + Bytes(text[i..j]) + Bytes(text[j..])
    ensures |Bytes(text[..i])| == ByteLength(text[..i]) && |Bytes(text[j..])| == ByteLength(text[j..])
  {
    hide Bytes, ByteLength;
    SplitBytes(text, j);
    SplitBytes(text[..j], i);
    assert text[..j][..i] == text[..i] && text[..j][i..] == text[i..j];
  }

  lemma Middle<T>(all: seq<T>, a: seq<T>, b: seq<T>, c: seq<T>, from: nat, back: nat)
    requires all == a + b + c && from == |a| && back == |c|
    ensures from + back <= |all| && b == all[from..|all| - back]
  {
  }

  /** The loops over bytes recover the edit the characters give. */
  method ComputeByteDiff(before: string, after: string) returns (e: ByteEdit)
    ensures Fits(before, DiffEdit(before, after)) && e == AtBytes(before, DiffEdit(before, after))
  {
    hide Bytes, ByteLength, IsBoundary, CommonPrefix, CommonSuffix;
    var ob, nb := Bytes(before), Bytes(after);
    ghost var k := CommonPrefix(before, after);
    ghost var chars := CommonSuffix(before[k..], after[k..]);
    DiffEditApplies(before, after);
    var prefix := ClampedPrefix(before, after);
    var suffix := ClampedSuffix(before, after, k, prefix);
    EqualEnds(before, after, k);
    ByteOffsets(before, after, k, chars, prefix, suffix);
    e := ByteEdit(prefix, |ob| - suffix, nb[prefix..|nb| - suffix]);
  }

  method ClampedPrefix(before: string, after: string) returns (prefix: nat)
    ensures var k := CommonPrefix(before, after);
      prefix == ByteLength(before[..k]) && prefix == ByteLength(after[..k])
  {
    var ob := Bytes(before);
    ghost var k := CommonPrefix(before, after);
    prefix := PrefixLength(ob, Bytes(after));
    ghost var n := prefix;
    PrefixBytes(before, after);
    EqualStarts(before, after, k);
    hide Bytes, ByteLength, IsBoundary, Uncut, CommonPrefix;
    ClampsToPrefix(before, k, n, prefix);
    while prefix > 0 && !IsBoundary(ob, prefix)
      invariant ByteLength(before[..k]) <= prefix <= n
      invariant IsBoundary(ob, prefix) <==> prefix == ByteLength(before[..k])
    {
      prefix := prefix - 1;
      ClampsToPrefix(before, k, n, prefix);
    }
  }

  method ClampedSuffix(before: string, after: string, ghost k: nat, prefix: nat) returns (suffix: nat)
    requires k <= |before| && k <= |after| && prefix == ByteLength(before[..k]) && prefix == ByteLength(after[..k])
    ensures var chars := CommonSuffix(before[k..], after[k..]);
      && k + chars <= |before| && k + chars <= |after|
      && suffix == ByteLength(before[|before| - chars..]) && suffix == ByteLength(after[|after| - chars..])
  {
    hide Bytes, ByteLength, UncutBackwards, CommonSuffix;
    var m := SuffixAfter(before, after, k, prefix);
    ghost var tail := SuffixBound(before, after, k);
    suffix := ClampSuffix(before, after, k, CommonSuffix(before[k..], after[k..]), m, tail);
  }

  method SuffixAfter(before: string, after: string, ghost k: nat, prefix: nat) returns (m: nat)
    requires k <= |before| && k <= |after| && prefix == ByteLength(before[..k]) && prefix == ByteLength(after[..k])
    ensures m == CommonSuffix(Bytes(before[k..]), Bytes(after[k..]))
  {
    hide Bytes, ByteLength, CommonSuffix;
    BytesFrom(before, k);
    BytesFrom(after, k);
    m := SuffixLength(Bytes(before)[prefix..], Bytes(after)[prefix..]);
  }

  /** Step back to a place where both texts may be cut. */
  method ClampSuffix(before: string, after: string, ghost k: nat, ghost chars: nat, m: nat, ghost tail: nat)
    returns (suffix: nat)
    requires k + chars <= |before| && chars <= |after|
    requires tail == ByteLength(before[k..][|before[k..]| - chars..]) && tail == ByteLength(after[|after| - chars..])
    requires tail <= m <= |Bytes(before[k..])| && UncutBackwards(Bytes(before[k..]), tail, m) && m <= |Bytes(after)|
    ensures suffix == tail
  {
    hide Bytes, ByteLength, IsBoundary, UncutBackwards;
    var ob, nb := Bytes(before), Bytes(after);
    suffix := m;
    TailIsCut(after, chars);
    ClampsToSuffix(before, k, chars, m, suffix);
    while suffix > 0 && (!IsBoundary(ob, |ob| - suffix) || !IsBoundary(nb, |nb| - suffix))
      invariant tail <= suffix <= m && suffix <= |ob|
      invariant IsBoundary(ob, |ob| - suffix) <==> suffix == tail
    {
      suffix := suffix - 1;
      ClampsToSuffix(before, k, chars, m, suffix);
    }
  }

  lemma BytesFrom(text: string, k: nat)
    requires k <= |text|
    ensures ByteLength(text[..k]) <= |Bytes(text)| && Bytes(text)[ByteLength(text[..k])..] == Bytes(text[k..])
  {
    hide Bytes, ByteLength;
    SplitBytes(text, k);
  }

  /** The bytes of the common characters at the end, and what is known of the common
      bytes there. */
  lemma SuffixBound(before: string, after: string, k: nat) returns (tail: nat)
    requires k <= |before| && k <= |after|
    ensures var a, b := before[k..], after[k..];
      var chars, m := CommonSuffix(a, b), CommonSuffix(Bytes(a), Bytes(b));
      && k + chars <= |before| && k + chars <= |after|
      && tail == ByteLength(a[|a| - chars..])
      && tail == ByteLength(before[|before| - chars..]) && tail == ByteLength(after[|after| - chars..])
      && tail <= m <= |Bytes(a)| && m <= |Bytes(after)| && UncutBackwards(Bytes(a), tail, m)
  {
    hide Bytes, ByteLength, UncutBackwards, CommonSuffix, FromEnd;
    var a, b := before[k..], after[k..];
    SuffixBytes(a, b);
    EqualEnds(before, after, k);
    TailOfTail(before, k, CommonSuffix(a, b));
    SplitBytes(after, k);
    tail := ByteLength(a[|a| - CommonSuffix(a, b)..]);
  }
}
