/** Stable sorting by a pair of numbers, as the library's `sort_by_key` does it. */
module Sorting {
  type Key = (nat, nat)

  predicate Precedes(a: Key, b: Key) {
    a.0 < b.0 || (a.0 == b.0 && a.1 < b.1)
  }

  /** Insert after everything that does not come later. */
  function Insert<T>(sorted: seq<T>, x: T, key: T -> Key): seq<T> {
    if sorted == [] || !Precedes(key(x), key(sorted[|sorted| - 1])) then sorted + [x]
    else Insert(sorted[..|sorted| - 1], x, key) + [sorted[|sorted| - 1]]
  }

  function SortBy<T>(s: seq<T>, key: T -> Key): seq<T> {
    if s == [] then [] else Insert(SortBy(s[..|s| - 1], key), s[|s| - 1], key)
  }

  ghost predicate OrderedBy<T>(s: seq<T>, key: T -> Key) {
    forall i, j :: 0 <= i < j < |s| ==> !Precedes(key(s[j]), key(s[i]))
  }

  /** The elements with a given key, in their order. */
  function WithKey<T>(s: seq<T>, key: T -> Key, k: Key): seq<T> {
    if s == [] then []
    else WithKey(s[..|s| - 1], key, k) + if key(s[|s| - 1]) == k then [s[|s| - 1]] else []
  }

  lemma {:induction false} InsertAdds<T>(sorted: seq<T>, x: T, key: T -> Key)
    ensures multiset(Insert(sorted, x, key)) == multiset(sorted) + multiset{x}
    decreases |sorted|
  {
    if sorted != [] && Precedes(key(x), key(sorted[|sorted| - 1])) {
      InsertAdds(sorted[..|sorted| - 1], x, key);
      assert sorted == sorted[..|sorted| - 1] + [sorted[|sorted| - 1]];
    }
  }

  /** No element comes after `k`. */
  ghost predicate AllUpTo<T>(s: seq<T>, key: T -> Key, k: Key) {
    forall i :: 0 <= i < |s| ==> !Precedes(k, key(s[i]))
  }

  lemma OrderedSnoc<T>(s: seq<T>, x: T, key: T -> Key)
    ensures OrderedBy(s + [x], key) <==> OrderedBy(s, key) && AllUpTo(s, key, key(x))
  {
    var more := s + [x];
    assert more[|s|] == x && forall i :: 0 <= i < |s| ==> more[i] == s[i];
    if OrderedBy(more, key) {
      forall i | 0 <= i < |s|
        ensures !Precedes(key(x), key(s[i]))
      {
        assert !Precedes(key(more[|s|]), key(more[i]));
      }
    }
  }

  lemma AllUpToSnoc<T>(s: seq<T>, x: T, key: T -> Key, k: Key)
    ensures AllUpTo(s + [x], key, k) <==> AllUpTo(s, key, k) && !Precedes(k, key(x))
  {
    var more := s + [x];
    assert more[|s|] == x && forall i :: 0 <= i < |s| ==> more[i] == s[i];
  }

  lemma {:induction false} InsertUpTo<T>(sorted: seq<T>, x: T, key: T -> Key, k: Key)
    ensures AllUpTo(Insert(sorted, x, key), key, k) <==> AllUpTo(sorted, key, k) && !Precedes(k, key(x))
    decreases |sorted|
  {
    if sorted == [] || !Precedes(key(x), key(sorted[|sorted| - 1])) {
      AllUpToSnoc(sorted, x, key, k);
    } else {
      var init, last := sorted[..|sorted| - 1], sorted[|sorted| - 1];
      InsertUpTo(init, x, key, k);
      assert sorted == init + [last];
      AllUpToSnoc(init, last, key, k);
      AllUpToSnoc(Insert(init, x, key), last, key, k);
      hide AllUpTo;
    }
  }

  lemma {:induction false} InsertIs<T>(sorted: seq<T>, x: T, key: T -> Key)
    requires OrderedBy(sorted, key)
    ensures OrderedBy(Insert(sorted, x, key), key)
    decreases |sorted|
  {
    if sorted == [] {
    } else {
      var init, last := sorted[..|sorted| - 1], sorted[|sorted| - 1];
      assert sorted == init + [last];
      OrderedSnoc(init, last, key);
      if Precedes(key(x), key(last)) {
        InsertIs(init, x, key);
        InsertUpTo(init, x, key, key(last));
        OrderedSnoc(Insert(init, x, key), last, key);
        hide OrderedBy, AllUpTo;
      } else {
        OrderedSnoc(sorted, x, key);
        UpToTrans(init, key, key(last), key(x));
        AllUpToSnoc(init, last, key, key(x));
        hide OrderedBy, AllUpTo;
      }
    }
  }

  lemma UpToTrans<T>(s: seq<T>, key: T -> Key, k: Key, l: Key)
    requires AllUpTo(s, key, k) && !Precedes(l, k)
    ensures AllUpTo(s, key, l)
  {
  }

  lemma WithKeySnoc<T>(s: seq<T>, x: T, key: T -> Key, k: Key)
    ensures WithKey(s + [x], key, k) == if key(x) == k then WithKey(s, key, k) + [x] else WithKey(s, key, k)
  {
    assert (s + [x])[..|s|] == s;
  }

  lemma {:induction false} InsertIsStable<T>(sorted: seq<T>, x: T, key: T -> Key, k: Key)
    requires OrderedBy(sorted, key)
    ensures WithKey(Insert(sorted, x, key), key, k) == if key(x) == k then WithKey(sorted, key, k) + [x] else WithKey(sorted, key, k)
    decreases |sorted|
  {
    if sorted != [] && Precedes(key(x), key(sorted[|sorted| - 1])) {
      var init, last := sorted[..|sorted| - 1], sorted[|sorted| - 1];
      InsertIsStable(init, x, key, k);
      WithKeySnoc(Insert(init, x, key), last, key, k);
      assert sorted == init + [last];
      WithKeySnoc(init, last, key, k);
      hide WithKey, Insert;
    } else {
      WithKeySnoc(sorted, x, key, k);
    }
  }

  /** The result is ordered, has the same elements, and keeps the order of those
      with equal keys. */
  lemma {:induction false} SortByIs<T>(s: seq<T>, key: T -> Key, k: Key)
    ensures OrderedBy(SortBy(s, key), key)
    ensures multiset(SortBy(s, key)) == multiset(s)
    ensures WithKey(SortBy(s, key), key, k) == WithKey(s, key, k)
    decreases |s|
  {
    if s != [] {
      var init, last := s[..|s| - 1], s[|s| - 1];
      SortByIs(init, key, k);
      InsertIs(SortBy(init, key), last, key);
      InsertAdds(SortBy(init, key), last, key);
      InsertIsStable(SortBy(init, key), last, key, k);
      assert s == init + [last];
      hide OrderedBy, Insert;
    }
  }

  lemma {:induction false} SortByLength<T>(s: seq<T>, key: T -> Key)
    ensures |SortBy(s, key)| == |s|
    decreases |s|
  {
    if s != [] {
      SortByLength(s[..|s| - 1], key);
      InsertLength(SortBy(s[..|s| - 1], key), s[|s| - 1], key);
    }
  }

  lemma {:induction false} InsertLength<T>(sorted: seq<T>, x: T, key: T -> Key)
    ensures |Insert(sorted, x, key)| == |sorted| + 1
    decreases |sorted|
  {
    if sorted != [] && Precedes(key(x), key(sorted[|sorted| - 1])) {
      InsertLength(sorted[..|sorted| - 1], x, key);
    }
  }
}
