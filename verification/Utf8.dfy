/** UTF-8 as the program's strings hold it: characters as one to four bytes, a
    first byte and continuation bytes, and the boundaries between characters. */
module Utf8 {
  type Byte = b: int | 0 <= b < 256

  /** How many bytes a character takes. */
  function Width(c: char): (n: nat)
    ensures 1 <= n <= 4
  {
    var u := c as int;
    if u < 0x80 then 1 else if u < 0x800 then 2 else if u < 0x1_0000 then 3 else 4
  }

  function Tail(u: nat): Byte {
    0x80 + u % 0x40
  }

  function Encoded(c: char): (bytes: seq<Byte>)
    ensures |bytes| == Width(c)
  {
    var u := c as int;
    if u < 0x80 then [u]
    else if u < 0x800 then [0xC0 + u / 0x40, Tail(u)]
    else if u < 0x1_0000 then [0xE0 + u / 0x1000, Tail(u / 0x40), Tail(u)]
    else [0xF0 + u / 0x4_0000, Tail(u / 0x1000), Tail(u / 0x40), Tail(u)]
  }

  function Bytes(s: string): seq<Byte> {
    if s == [] then [] else Encoded(s[0]) + Bytes(s[1..])
  }

  function ByteLength(s: string): nat {
    if s == [] then 0 else Width(s[0]) + ByteLength(s[1..])
  }

  predicate IsContinuation(b: Byte) {
    0x80 <= b < 0xC0
  }

  /** Where a string may be cut. */
  predicate IsBoundary(bytes: seq<Byte>, i: nat) {
    i == 0 || i == |bytes| || (i < |bytes| && !IsContinuation(bytes[i]))
  }

  // ---- The shape of an encoded character ----

  lemma EncodedShape(c: char)
    ensures !IsContinuation(Encoded(c)[0])
    ensures forall k :: 0 < k < Width(c) ==> IsContinuation(Encoded(c)[k])
  {
  }

  lemma FirstByteDecides(c: char, d: char)
    requires Encoded(c)[0] == Encoded(d)[0]
    ensures Width(c) == Width(d)
  {
  }

  lemma EncodedInjective(c: char, d: char)
    requires Encoded(c) == Encoded(d)
    ensures c == d
  {
    FirstByteDecides(c, d);
    assert forall k :: 0 <= k < Width(c) ==> Encoded(c)[k] == Encoded(d)[k];
    var u, v := c as int, d as int;
    if u < 0x80 {
    } else if u < 0x800 {
      assert u == 0x40 * (u / 0x40) + u % 0x40 && v == 0x40 * (v / 0x40) + v % 0x40;
    } else if u < 0x1_0000 {
      ThreeDigits(u);
      ThreeDigits(v);
    } else {
      FourDigits(u);
      FourDigits(v);
    }
  }

  lemma ThreeDigits(u: nat)
    ensures u == 0x1000 * (u / 0x1000) + 0x40 * ((u / 0x40) % 0x40) + u % 0x40
  {
    assert (u / 0x40) / 0x40 == u / 0x1000;
  }

  lemma FourDigits(u: nat)
    ensures u == 0x4_0000 * (u / 0x4_0000) + 0x1000 * ((u / 0x1000) % 0x40) + 0x40 * ((u / 0x40) % 0x40) + u % 0x40
  {
    ThreeDigits(u);
    assert (u / 0x1000) / 0x40 == u / 0x4_0000;
  }

  // ---- Strings ----

  lemma {:induction false} BytesLength(s: string)
    ensures |Bytes(s)| == ByteLength(s)
  {
    if s != [] {
      BytesLength(s[1..]);
    }
  }

  lemma {:induction false} BytesConcat(a: string, b: string)
    ensures Bytes(a + b) == Bytes(a) + Bytes(b)
    ensures ByteLength(a + b) == ByteLength(a) + ByteLength(b)
  {
    if a == [] {
      assert a + b == b;
    } else {
      assert (a + b)[0] == a[0] && (a + b)[1..] == a[1..] + b;
      BytesConcat(a[1..], b);
      hide Encoded;
    }
  }

  lemma OneCharacter(c: char)
    ensures Bytes([c]) == Encoded(c) && ByteLength([c]) == Width(c)
  {
    assert [c][1..] == [];
    hide Encoded, Width;
  }

  lemma StartsAtBoundary(s: string)
    ensures Bytes(s) != [] ==> !IsContinuation(Bytes(s)[0])
  {
    if s != [] {
      EncodedShape(s[0]);
      hide Encoded, IsContinuation;
    }
  }

  /** Cutting what follows a string cuts the whole. */
  lemma BoundaryAfter(a: string, b: string, i: nat)
    requires i <= |Bytes(b)|
    ensures IsBoundary(Bytes(a) + Bytes(b), |Bytes(a)| + i) <==> IsBoundary(Bytes(b), i)
  {
    StartsAtBoundary(b);
    hide Bytes, IsContinuation;
    if i < |Bytes(b)| {
      assert (Bytes(a) + Bytes(b))[|Bytes(a)| + i] == Bytes(b)[i];
    }
  }

  lemma BoundaryBefore(a: string, b: string, i: nat)
    requires i < |Bytes(a)|
    ensures IsBoundary(Bytes(a) + Bytes(b), i) <==> IsBoundary(Bytes(a), i)
  {
    hide Bytes, IsContinuation;
    assert (Bytes(a) + Bytes(b))[i] == Bytes(a)[i];
  }

  /** Inside a character there is no boundary. */
  lemma InsideCharacter(c: char, i: nat)
    requires 0 < i < Width(c)
    ensures !IsBoundary(Encoded(c), i)
  {
    EncodedShape(c);
    hide Encoded, IsContinuation;
  }

  lemma SplitBytes(s: string, k: nat)
    requires k <= |s|
    ensures Bytes(s) == Bytes(s[..k]) + Bytes(s[k..]) && ByteLength(s) == ByteLength(s[..k]) + ByteLength(s[k..])
    ensures |Bytes(s[..k])| == ByteLength(s[..k]) && |Bytes(s[k..])| == ByteLength(s[k..]) && |Bytes(s)| == ByteLength(s)
  {
    assert s == s[..k] + s[k..];
    hide Bytes, ByteLength;
    BytesConcat(s[..k], s[k..]);
    BytesLength(s[..k]);
    BytesLength(s[k..]);
    BytesLength(s);
  }

  /** The boundaries of a string are the ends of its prefixes. */
  lemma {:induction false} BoundariesArePrefixes(s: string, i: nat)
    requires i <= |Bytes(s)|
    ensures IsBoundary(Bytes(s), i) <==> exists k :: 0 <= k <= |s| && ByteLength(s[..k]) == i
    decreases |s|
  {
    BytesLength(s);
    if s == [] {
      assert s[..0] == [];
    } else {
      var c, rest := s[0], s[1..];
      OneCharacter(c);
      assert s == [c] + rest;
      assert forall k :: 0 < k <= |s| ==> s[..k] == [c] + rest[..k - 1];
      forall k | 0 < k <= |s|
        ensures ByteLength(s[..k]) == Width(c) + ByteLength(rest[..k - 1])
      {
        BytesConcat([c], rest[..k - 1]);
      }
      assert s[..0] == [] && ByteLength([]) == 0;
      if i < Width(c) {
        if i > 0 {
          InsideCharacter(c, i);
          BoundaryBefore([c], rest, i);
        }
        hide Encoded, IsContinuation, IsBoundary;
      } else {
        BoundariesArePrefixes(rest, i - Width(c));
        BoundaryAfter([c], rest, i - Width(c));
        hide Encoded, IsContinuation, IsBoundary, Bytes, Width;
        if k :| 0 <= k <= |rest| && ByteLength(rest[..k]) == i - Width(c) {
          assert ByteLength(s[..k + 1]) == i;
        }
        if k :| 0 <= k <= |s| && ByteLength(s[..k]) == i && k > 0 {
          assert ByteLength(rest[..k - 1]) == i - Width(c);
        }
      }
    }
  }
}
