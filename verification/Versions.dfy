/** Julia version numbers (src/julia_version.rs): three unsigned 32-bit
    components compared in order, and the successor arithmetic the compatibility
    intervals are built from (src/julia_version/compat.rs). */
module Versions {
  import opened Wrappers

  const MAX: nat := 0xFFFF_FFFF

  type u32 = n: nat | n <= MAX

  datatype Version = Version(major: u32, minor: u32, patch: u32)

  const ZERO := Version(0, 0, 0)

  predicate Less(a: Version, b: Version) {
    || a.major < b.major
    || (a.major == b.major && (a.minor < b.minor || (a.minor == b.minor && a.patch < b.patch)))
  }

  predicate AtMost(a: Version, b: Version) {
    !Less(b, a)
  }

  /** An inclusive floor and an optional exclusive ceiling. */
  datatype VersionRange = VersionRange(min: Version, max: Option<Version>)

  predicate InRange(range: VersionRange, v: Version) {
    AtMost(range.min, v) && (range.max.None? || Less(v, range.max.value))
  }

  /** The first `p` components, with the others cleared. */
  function Truncate(v: Version, p: nat): (t: Version)
    requires 1 <= p <= 3
    ensures AtMost(t, v)
  {
    Version(v.major, if p >= 2 then v.minor else 0, if p == 3 then v.patch else 0)
  }

  function Components(v: Version): (s: seq<u32>)
    ensures |s| == 3
  {
    [v.major, v.minor, v.patch]
  }

  /** Add one to the last of the first `index` components, carrying to the left. */
  function Bump(parts: seq<u32>, index: nat): (r: Option<seq<u32>>)
    requires index <= |parts|
    ensures r.Some? ==> |r.value| == |parts|
    decreases index
  {
    if index == 0 then None
    else if parts[index - 1] < MAX then Some(parts[index - 1 := parts[index - 1] + 1])
    else Bump(parts[index - 1 := 0], index - 1)
  }

  function Successor(v: Version, p: nat): Option<Version>
    requires 1 <= p <= 3
  {
    match Bump(Components(Truncate(v, p)), p)
    case None => None
    case Some(s) => Some(Version(s[0], s[1], s[2]))
  }

  method ComputeSuccessor(v: Version, p: nat) returns (r: Option<Version>)
    requires 1 <= p <= 3
    ensures r == Successor(v, p)
  {
    var parts := new u32[3];
    parts[0], parts[1], parts[2] := v.major, v.minor, v.patch;
    for k := p to 3
      invariant parts.Length == 3
      invariant forall i :: 0 <= i < p ==> parts[i] == Components(v)[i]
      invariant forall i :: p <= i < k ==> parts[i] == 0
    {
      parts[k] := 0;
    }
    assert parts[..] == Components(Truncate(v, p));
    var index := p;
    while index > 0
      invariant index <= 3 && parts.Length == 3
      invariant Bump(parts[..], index) == Bump(Components(Truncate(v, p)), p)
    {
      index := index - 1;
      if parts[index] < MAX {
        ghost var before := parts[..];
        parts[index] := parts[index] + 1;
        assert parts[..] == before[index := before[index] + 1];
        return Some(Version(parts[0], parts[1], parts[2]));
      }
      ghost var before := parts[..];
      parts[index] := 0;
      assert parts[..] == before[index := 0];
    }
    return None;
  }

  lemma BumpCases(v: Version, p: nat)
    requires 1 <= p <= 3
    ensures var s := Components(Truncate(v, p));
      Bump(s, p) ==
        if s[p - 1] < MAX then Some(s[p - 1 := s[p - 1] + 1])
        else if p > 1 && s[p - 2] < MAX then Some(s[p - 1 := 0][p - 2 := s[p - 2] + 1])
        else if p > 2 && s[p - 3] < MAX then Some(s[p - 1 := 0][p - 2 := 0][p - 3 := s[p - 3] + 1])
        else None
  {
    var s := Components(Truncate(v, p));
    if s[p - 1] == MAX {
      var t := s[p - 1 := 0];
      assert Bump(s, p) == Bump(t, p - 1);
      if p > 1 && t[p - 2] == MAX {
        var u := t[p - 2 := 0];
        assert Bump(t, p - 1) == Bump(u, p - 2);
      }
    }
  }

  /** The successor bounds exactly the versions whose first `p` components are at
      most those of `v`; it is missing exactly when no version exceeds them. */
  lemma SuccessorBounds(v: Version, p: nat, w: Version)
    requires 1 <= p <= 3
    ensures Successor(v, p).None? <==> Truncate(v, p) == Truncate(Version(MAX, MAX, MAX), p)
    ensures (Successor(v, p).None? || Less(w, Successor(v, p).value)) <==> AtMost(Truncate(w, p), Truncate(v, p))
  {
    BumpCases(v, p);
  }

  /** The successor has no more components than the version it bounds, and lies
      strictly above everything that shares them. */
  lemma SuccessorAbove(v: Version, p: nat)
    requires 1 <= p <= 3
    ensures Successor(v, p).Some? ==>
      Truncate(Successor(v, p).value, p) == Successor(v, p).value && Less(v, Successor(v, p).value)
  {
    BumpCases(v, p);
  }

  lemma OrderIsTotal(a: Version, b: Version, c: Version)
    ensures Less(a, b) || Less(b, a) || a == b
    ensures Less(a, b) ==> !Less(b, a)
    ensures Less(a, b) && Less(b, c) ==> Less(a, c)
  {
  }
}
