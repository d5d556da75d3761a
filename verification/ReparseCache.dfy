/** The reparse side-channel shared by all readers (src/incremental.rs): per file
    the last parse and the edits staged since, bounded by a two-class
    least-recently-used eviction. `Cache` is the abstract value of the class
    `ReparseCache`, and each of its methods is one atomic step under the lock. */
module ReparseCache {
  import opened Wrappers
  import opened Edits
  import opened Utf8

  type SourceFile = nat

  const MAX_REPARSE_BASES: nat := 64
  const MAX_CHAIN_EDITS: nat := 16
  const MAX_CHAIN_INSERT_BYTES: nat := 64 * 1024

  datatype PrevParse = PrevParse(text: string, parsed: Parsed)

  datatype FileState = FileState(prev: Option<PrevParse>, pending: seq<Edit>, used: nat, hot: bool)

  type Files = map<SourceFile, FileState>

  datatype Cache = Cache(files: Files, clock: nat)

  function StateOf(files: Files, f: SourceFile): FileState {
    if f in files then files[f] else FileState(None, [], 0, false)
  }

  // ---- What eviction keeps ----

  function OfClass(files: Files, hot: bool): set<SourceFile> {
    set f | f in files && files[f].hot == hot
  }

  /** The members of `s` that are at least as old as the stamp. */
  function UpTo(files: Files, s: set<SourceFile>, stamp: nat): set<SourceFile> {
    set f | f in s && f in files && files[f].used <= stamp
  }

  /** The age rank of `f` in `s`: one for the oldest. */
  function Rank(files: Files, s: set<SourceFile>, f: SourceFile): nat {
    |UpTo(files, s, StateOf(files, f).used)|
  }

  function Overflow(n: nat): nat {
    if n <= MAX_REPARSE_BASES then 0 else n - MAX_REPARSE_BASES
  }

  /** Cold entries absorb the overflow, the oldest first; only when the hot ones
      alone are too many do all cold ones and the oldest hot ones go. */
  predicate Survives(files: Files, f: SourceFile) {
    var hot, cold := OfClass(files, true), OfClass(files, false);
    if |hot| <= MAX_REPARSE_BASES then f in hot || Rank(files, cold, f) > Overflow(|files|)
    else f in hot && Rank(files, hot, f) > Overflow(|hot|)
  }

  function Trimmed(files: Files): Files {
    map f | f in files && Survives(files, f) :: files[f]
  }

  /** Stamps never repeat and never run ahead of the clock. */
  ghost predicate Stamped(c: Cache) {
    && (forall f :: f in c.files ==> c.files[f].used <= c.clock)
    && forall f, g :: f in c.files && g in c.files && f != g ==> c.files[f].used != c.files[g].used
  }

  // ---- The atomic steps ----

  /** Write the state of one file, stamped as just used. */
  function Put(c: Cache, f: SourceFile, s: FileState): Cache {
    Cache(c.files[f := s.(used := c.clock + 1)], c.clock + 1)
  }

  function Touch(c: Cache, f: SourceFile): Cache {
    Put(c, f, StateOf(c.files, f))
  }

  function Prev(c: Cache, f: SourceFile): Option<PrevParse> {
    StateOf(c.files, f).prev
  }

  function AfterPrev(c: Cache, f: SourceFile): Cache {
    if f in c.files then Touch(c, f) else c
  }

  function Pending(c: Cache, f: SourceFile): seq<Edit> {
    StateOf(c.files, f).pending
  }

  function InsertedLength(edits: seq<Edit>): nat {
    if edits == [] then 0 else InsertedLength(edits[..|edits| - 1]) + ByteLength(edits[|edits| - 1].insert)
  }

  predicate OverBudget(edits: seq<Edit>) {
    |edits| > MAX_CHAIN_EDITS || InsertedLength(edits) > MAX_CHAIN_INSERT_BYTES
  }

  function Bounded(edits: seq<Edit>): seq<Edit> {
    if OverBudget(edits) then [] else edits
  }

  function Trim(c: Cache): Cache {
    c.(files := Trimmed(c.files))
  }

  function Staged(s: FileState, chain: seq<Edit>): FileState {
    s.(hot := true, pending := Bounded(s.pending + chain))
  }

  function Cleared(s: FileState): FileState {
    s.(pending := [])
  }

  /** A chain that is not known clears what is pending and neither promotes the
      file nor evicts anything. */
  function Stage(c: Cache, f: SourceFile, edits: Option<seq<Edit>>): Cache {
    match edits
    case None => Put(c, f, Cleared(StateOf(c.files, f)))
    case Some(chain) => Trim(Put(c, f, Staged(StateOf(c.files, f), chain)))
  }

  function Drained(edits: seq<Edit>, consumed: nat): seq<Edit> {
    if consumed < |edits| then edits[consumed..] else []
  }

  function Stored(s: FileState, prev: PrevParse, hit: bool, consumed: nat): FileState {
    s.(hot := s.hot || hit, prev := Some(prev), pending := Drained(s.pending, consumed))
  }

  function Store(c: Cache, f: SourceFile, prev: PrevParse, hit: bool, consumed: nat): Cache {
    Trim(Put(c, f, Stored(StateOf(c.files, f), prev, hit, consumed)))
  }

  function Dropped(c: Cache, f: SourceFile): Cache {
    c.(files := c.files - {f})
  }

  // ---- Ranks in a class with unique stamps ----

  ghost predicate Unique(files: Files, s: set<SourceFile>) {
    && (forall f :: f in s ==> f in files)
    && forall f, g :: f in s && g in s && f != g ==> files[f].used != files[g].used
  }

  lemma {:induction false} Newest(files: Files, s: set<SourceFile>) returns (m: SourceFile)
    requires Unique(files, s) && s != {}
    ensures m in s && forall f :: f in s && f != m ==> files[f].used < files[m].used
    decreases s
  {
    m :| m in s;
    var rest := s - {m};
    if rest != {} {
      var n := Newest(files, rest);
      m := if files[m].used > files[n].used then m else n;
    }
  }

  function Oldest(files: Files, s: set<SourceFile>, n: nat): set<SourceFile> {
    set f | f in s && Rank(files, s, f) <= n
  }

  /** As many members have a rank of at most `n` as `n` says. */
  lemma {:induction false} RanksCount(files: Files, s: set<SourceFile>, n: nat)
    requires Unique(files, s) && n <= |s|
    ensures |Oldest(files, s, n)| == n
    decreases s
  {
    if n == |s| {
      forall f | f in s
        ensures Rank(files, s, f) <= n
      {
        SubsetSize(UpTo(files, s, StateOf(files, f).used), s);
      }
      assert Oldest(files, s, n) == s;
    } else {
      var m := Newest(files, s);
      var rest := s - {m};
      RanksCount(files, rest, n);
      assert UpTo(files, s, files[m].used) == s;
      forall f | f in rest
        ensures Rank(files, s, f) == Rank(files, rest, f)
      {
        assert UpTo(files, s, files[f].used) == UpTo(files, rest, files[f].used);
      }
      assert Oldest(files, s, n) == Oldest(files, rest, n);
    }
  }

  lemma {:induction false} SubsetSize<T>(a: set<T>, b: set<T>)
    requires a <= b
    ensures |a| <= |b|
    ensures |a| == |b| ==> a == b
    decreases a
  {
    if x :| x in a {
      SubsetSize(a - {x}, b - {x});
    }
  }

  /** Being newer means ranking higher. */
  lemma RankOrders(files: Files, s: set<SourceFile>, f: SourceFile, g: SourceFile)
    requires f in s && g in s && f in files && g in files
    ensures files[f].used < files[g].used <==> Rank(files, s, f) < Rank(files, s, g)
  {
    var a, b := UpTo(files, s, files[f].used), UpTo(files, s, files[g].used);
    if files[f].used < files[g].used {
      SubsetSize(a, b);
      assert g in b && g !in a;
    } else {
      SubsetSize(b, a);
    }
  }

  /** The threshold the eviction works with: keeping what is newer than the
      `n`-th oldest is keeping what ranks above `n`. */
  lemma ThresholdIsRank(files: Files, s: set<SourceFile>, stamp: nat, f: SourceFile)
    requires f in s && f in files
    ensures files[f].used > stamp <==> Rank(files, s, f) > |UpTo(files, s, stamp)|
  {
    var a, b := UpTo(files, s, stamp), UpTo(files, s, files[f].used);
    if files[f].used > stamp {
      SubsetSize(a, b);
      assert f in b && f !in a;
    } else {
      SubsetSize(b, a);
    }
  }

  // ---- What eviction guarantees ----

  lemma ClassesSplit(files: Files)
    ensures OfClass(files, true) + OfClass(files, false) == files.Keys
    ensures OfClass(files, true) !! OfClass(files, false)
    ensures |OfClass(files, true)| + |OfClass(files, false)| == |files|
  {
    assert OfClass(files, true) + OfClass(files, false) == files.Keys;
  }

  /** The keys that go, as a set: the oldest of one class, or all the cold ones
      with the oldest of the hot. */
  lemma VictimsAre(c: Cache)
    requires Stamped(c)
    ensures var hot, cold := OfClass(c.files, true), OfClass(c.files, false);
      c.files.Keys - Trimmed(c.files).Keys ==
        if |hot| <= MAX_REPARSE_BASES then Oldest(c.files, cold, Overflow(|c.files|))
        else cold + Oldest(c.files, hot, Overflow(|hot|))
  {
    ClassesSplit(c.files);
    hide Rank;
  }

  /** Exactly the overflow is dropped, so at most the budget remains; no hot entry
      goes while the hot ones fit; within a class every survivor is newer than
      every victim; what survives is unchanged. */
  lemma EvictionIsExact(c: Cache)
    requires Stamped(c)
    ensures Stamped(Trim(c))
    ensures |Trimmed(c.files)| == |c.files| - Overflow(|c.files|) <= MAX_REPARSE_BASES
    ensures |OfClass(c.files, true)| <= MAX_REPARSE_BASES ==>
      forall f :: f in c.files && c.files[f].hot ==> f in Trimmed(c.files)
    ensures |OfClass(c.files, true)| > MAX_REPARSE_BASES ==>
      forall f :: f in Trimmed(c.files) ==> c.files[f].hot
    ensures forall f, g ::
      f in Trimmed(c.files) && g in c.files && g !in Trimmed(c.files) && c.files[f].hot == c.files[g].hot ==>
        c.files[g].used < c.files[f].used
    ensures forall f :: f in Trimmed(c.files) ==> f in c.files && Trimmed(c.files)[f] == c.files[f]
  {
    EvictionCounts(c);
    forall f, g | f in Trimmed(c.files) && g in c.files && g !in Trimmed(c.files) && c.files[f].hot == c.files[g].hot
      ensures c.files[g].used < c.files[f].used
    {
      RankOrders(c.files, OfClass(c.files, c.files[f].hot), g, f);
      hide Rank;
    }
    hide Rank;
  }

  lemma EvictionCounts(c: Cache)
    requires Stamped(c)
    ensures |Trimmed(c.files)| == |c.files| - Overflow(|c.files|)
  {
    var hot, cold := OfClass(c.files, true), OfClass(c.files, false);
    ClassesSplit(c.files);
    VictimsAre(c);
    if |hot| <= MAX_REPARSE_BASES {
      RanksCount(c.files, cold, Overflow(|c.files|));
    } else {
      RanksCount(c.files, hot, Overflow(|hot|));
    }
    assert Oldest(c.files, hot, Overflow(|hot|)) <= hot;
    hide Rank, Survives, Oldest, OfClass;
    assert Trimmed(c.files).Keys <= c.files.Keys;
    assert |c.files.Keys - Trimmed(c.files).Keys| == |c.files.Keys| - |Trimmed(c.files).Keys|;
  }

  // ---- Every step keeps the stamps apart ----

  lemma PutKeepsStamps(c: Cache, f: SourceFile, s: FileState)
    requires Stamped(c)
    ensures Stamped(Put(c, f, s))
  {
  }

  lemma StageKeepsStamps(c: Cache, f: SourceFile, edits: Option<seq<Edit>>)
    requires Stamped(c)
    ensures Stamped(Stage(c, f, edits))
    ensures edits.Some? ==> |Stage(c, f, edits).files| <= MAX_REPARSE_BASES && f in Stage(c, f, edits).files
  {
    match edits
    case None => PutKeepsStamps(c, f, Cleared(StateOf(c.files, f)));
    case Some(chain) =>
      var s := Staged(StateOf(c.files, f), chain);
      PutKeepsStamps(c, f, s);
      EvictionIsExact(Put(c, f, s));
      NewestHotSurvives(Put(c, f, s), f);
      hide Stamped, Trimmed, Bounded;
  }

  /** The entry just stamped is never the one that goes, if it is hot. */
  lemma NewestHotSurvives(c: Cache, f: SourceFile)
    requires Stamped(c) && f in c.files && c.files[f].hot && c.files[f].used == c.clock
    ensures f in Trimmed(c.files)
  {
    var hot := OfClass(c.files, true);
    assert UpTo(c.files, hot, c.clock) == hot;
  }

  lemma StoreKeepsStamps(c: Cache, f: SourceFile, prev: PrevParse, hit: bool, consumed: nat)
    requires Stamped(c)
    ensures Stamped(Store(c, f, prev, hit, consumed))
    ensures |Store(c, f, prev, hit, consumed).files| <= MAX_REPARSE_BASES
  {
    var s := Stored(StateOf(c.files, f), prev, hit, consumed);
    PutKeepsStamps(c, f, s);
    EvictionIsExact(Put(c, f, s));
    hide Stamped, Trimmed, Stored;
  }

  /** The newest entry, when cold, goes only if the hot ones fill the budget. */
  lemma NewestColdSurvives(c: Cache, f: SourceFile)
    requires Stamped(c) && f in c.files && !c.files[f].hot && c.files[f].used == c.clock
    ensures f in Trimmed(c.files) <==> |OfClass(c.files, true)| < MAX_REPARSE_BASES
  {
    var hot, cold := OfClass(c.files, true), OfClass(c.files, false);
    ClassesSplit(c.files);
    assert f in cold && f !in hot;
    assert UpTo(c.files, cold, c.clock) == cold;
    assert Rank(c.files, cold, f) == |cold|;
  }

  /** A base just stored is itself dropped only if it earned nothing and the hot
      entries fill the whole budget. */
  lemma StoreDropsItself(c: Cache, f: SourceFile, prev: PrevParse, hit: bool, consumed: nat)
    requires Stamped(c)
    ensures f !in Store(c, f, prev, hit, consumed).files <==>
      !hit && !StateOf(c.files, f).hot && |OfClass(c.files, true)| >= MAX_REPARSE_BASES
  {
    var s := Stored(StateOf(c.files, f), prev, hit, consumed);
    var u := Put(c, f, s);
    PutKeepsStamps(c, f, s);
    hide Trimmed, Stamped;
    if s.hot {
      NewestHotSurvives(u, f);
    } else {
      NewestColdSurvives(u, f);
      assert OfClass(u.files, true) == OfClass(c.files, true);
    }
  }

  lemma EvictKeepsStamps(c: Cache, f: SourceFile)
    requires Stamped(c)
    ensures Stamped(Dropped(c, f))
  {
  }

  // ---- The object under the lock ----

  function Stamps(files: Files, s: set<SourceFile>): set<nat> {
    set f | f in s && f in files :: files[f].used
  }

  function AtMost(stamps: set<nat>, n: nat): set<nat> {
    set x | x in stamps && x <= n
  }

  lemma {:induction false} StampsCount(files: Files, s: set<SourceFile>)
    requires Unique(files, s)
    ensures |Stamps(files, s)| == |s|
    decreases s
  {
    if f :| f in s {
      StampsCount(files, s - {f});
      assert Stamps(files, s) == Stamps(files, s - {f}) + {files[f].used};
    }
  }

  lemma ThresholdCounts(files: Files, s: set<SourceFile>, stamp: nat)
    requires Unique(files, s)
    ensures |AtMost(Stamps(files, s), stamp)| == |UpTo(files, s, stamp)|
  {
    StampsCount(files, UpTo(files, s, stamp));
    assert AtMost(Stamps(files, s), stamp) == Stamps(files, UpTo(files, s, stamp));
  }

  method Smallest(stamps: set<nat>) returns (m: nat)
    requires stamps != {}
    ensures m in stamps && forall x :: x in stamps ==> m <= x
  {
    m :| m in stamps;
    var rest := stamps - {m};
    while rest != {}
      invariant rest <= stamps && m in stamps
      invariant forall x :: x in stamps && x !in rest ==> m <= x
      decreases rest
    {
      var x :| x in rest;
      if x < m {
        m := x;
      }
      rest := rest - {x};
    }
  }

  /** The `n`-th smallest stamp. */
  method SelectNth(stamps: set<nat>, n: nat) returns (stamp: nat)
    requires 0 < n <= |stamps|
    ensures stamp in stamps && |AtMost(stamps, stamp)| == n
  {
    var rest := stamps;
    stamp := 0;
    for i := 0 to n
      invariant rest <= stamps && |rest| == |stamps| - i
      invariant forall x, y :: x in rest && y in stamps - rest ==> y < x
      invariant i > 0 ==> stamp in stamps - rest
      invariant forall y :: y in stamps - rest ==> y <= stamp
    {
      stamp := Smallest(rest);
      assert forall y :: y in stamps - (rest - {stamp}) ==> y == stamp || y in stamps - rest;
      rest := rest - {stamp};
    }
    assert AtMost(stamps, stamp) == stamps - rest;
    assert |stamps - rest| == |stamps| - |rest|;
  }

  class ReparseCache {
    var files: Files
    var clock: nat

    ghost function View(): Cache
      reads this
    {
      Cache(files, clock)
    }

    constructor ()
      ensures View() == Cache(map[], 0) && Stamped(View())
    {
      files, clock := map[], 0;
    }

    /** Give a file the newest stamp, on an empty entry if it has none yet. */
    method TouchFile(f: SourceFile) returns (state: FileState)
      modifies this
      ensures View() == Touch(old(View()), f)
      ensures state == StateOf(old(files), f).(used := old(clock) + 1)
    {
      clock := clock + 1;
      state := StateOf(files, f).(used := clock);
      files := files[f := state];
    }

    method EvictOverBudget()
      requires Stamped(View())
      modifies `files
      ensures View() == Trim(old(View())) && Stamped(View())
    {
      TrimKeepsStamps(View());
      hide Stamped, Trimmed, OfClass, AtMost, Stamps, KeepNewCold, KeepNewHot;
      if |files| <= MAX_REPARSE_BASES {
        KeepsAll(View());
        return;
      }
      var hot := |OfClass(files, true)|;
      if hot <= MAX_REPARSE_BASES {
        var over := |files| - MAX_REPARSE_BASES;
        ColdAbsorb(View());
        var threshold := SelectNth(Stamps(files, OfClass(files, false)), over);
        RetainsCold(View(), threshold);
        files := KeepNewCold(files, threshold);
      } else {
        var cut := hot - MAX_REPARSE_BASES;
        HotStamps(View());
        var threshold := SelectNth(Stamps(files, OfClass(files, true)), cut);
        RetainsHot(View(), threshold);
        files := KeepNewHot(files, threshold);
      }
    }

    method ReparsePrev(f: SourceFile) returns (prev: Option<PrevParse>)
      requires Stamped(View())
      modifies this
      ensures prev == Prev(old(View()), f)
      ensures View() == AfterPrev(old(View()), f) && Stamped(View())
    {
      if f !in files {
        return None;
      }
      prev := files[f].prev;
      PutKeepsStamps(View(), f, files[f]);
      hide Stamped;
      var _ := TouchFile(f);
    }

    method ReparseStageEdits(f: SourceFile, edits: Option<seq<Edit>>)
      requires Stamped(View())
      modifies this
      ensures View() == Stage(old(View()), f, edits) && Stamped(View())
    {
      ghost var before := View();
      hide Stamped, Trimmed, Put, StateOf, InsertedLength;
      var state := TouchFile(f);
      if edits.None? {
        state := state.(pending := []);
        files := files[f := state];
        Rewrite(before, f, StateOf(before.files, f), Cleared(StateOf(before.files, f)));
        PutKeepsStamps(before, f, Cleared(StateOf(before.files, f)));
        return;
      }
      state := state.(hot := true, pending := state.pending + edits.value);
      var bytes := SumInserts(state.pending);
      if |state.pending| > MAX_CHAIN_EDITS || bytes > MAX_CHAIN_INSERT_BYTES {
        state := state.(pending := []);
      }
      files := files[f := state];
      Rewrite(before, f, StateOf(before.files, f), Staged(StateOf(before.files, f), edits.value));
      PutKeepsStamps(before, f, Staged(StateOf(before.files, f), edits.value));
      EvictOverBudget();
    }

    method SumInserts(edits: seq<Edit>) returns (bytes: nat)
      ensures bytes == InsertedLength(edits)
    {
      bytes := 0;
      for i := 0 to |edits|
        invariant bytes == InsertedLength(edits[..i])
      {
        bytes := bytes + ByteLength(edits[i].insert);
        assert edits[..i + 1][..i] == edits[..i];
      }
      assert edits[..|edits|] == edits;
    }

    method ReparsePendingEdits(f: SourceFile) returns (edits: seq<Edit>)
      ensures edits == Pending(View(), f)
    {
      edits := if f in files then files[f].pending else [];
    }

    method ReparseStore(f: SourceFile, prev: PrevParse, hit: bool, consumed: nat)
      requires Stamped(View())
      modifies this
      ensures View() == Store(old(View()), f, prev, hit, consumed) && Stamped(View())
    {
      ghost var before := View();
      hide Stamped, Trimmed, Put, StateOf;
      var state := TouchFile(f);
      state := state.(hot := state.hot || hit, prev := Some(prev));
      var n := if consumed < |state.pending| then consumed else |state.pending|;
      state := state.(pending := state.pending[n..]);
      files := files[f := state];
      Rewrite(before, f, StateOf(before.files, f), Stored(StateOf(before.files, f), prev, hit, consumed));
      PutKeepsStamps(before, f, Stored(StateOf(before.files, f), prev, hit, consumed));
      EvictOverBudget();
    }

    method ReparseEvict(f: SourceFile)
      requires Stamped(View())
      modifies this
      ensures View() == Dropped(old(View()), f) && Stamped(View())
    {
      files := files - {f};
    }
  }

  /** Stamping an entry and then updating it is writing it once. */
  lemma Rewrite(c: Cache, f: SourceFile, s: FileState, t: FileState)
    ensures Cache(Put(c, f, s).files[f := t.(used := c.clock + 1)], Put(c, f, s).clock) == Put(c, f, t)
  {
  }

  function KeepNewCold(files: Files, threshold: nat): Files {
    map f | f in files && (files[f].hot || files[f].used > threshold) :: files[f]
  }

  function KeepNewHot(files: Files, threshold: nat): Files {
    map f | f in files && files[f].hot && files[f].used > threshold :: files[f]
  }

  lemma TrimKeepsStamps(c: Cache)
    requires Stamped(c)
    ensures Stamped(Trim(c))
  {
    hide Survives;
  }

  lemma ColdAbsorb(c: Cache)
    requires Stamped(c) && |OfClass(c.files, true)| <= MAX_REPARSE_BASES < |c.files|
    ensures |Stamps(c.files, OfClass(c.files, false))| >= |c.files| - MAX_REPARSE_BASES
  {
    ClassesSplit(c.files);
    StampsCount(c.files, OfClass(c.files, false));
  }

  lemma HotStamps(c: Cache)
    requires Stamped(c)
    ensures |Stamps(c.files, OfClass(c.files, true))| == |OfClass(c.files, true)|
  {
    StampsCount(c.files, OfClass(c.files, true));
  }

  lemma KeepsAll(c: Cache)
    requires |c.files| <= MAX_REPARSE_BASES
    ensures Trimmed(c.files) == c.files
  {
    ClassesSplit(c.files);
    forall f | f in c.files
      ensures Survives(c.files, f)
    {
      var cold := OfClass(c.files, false);
      if f in cold {
        assert f in UpTo(c.files, cold, c.files[f].used);
      }
    }
  }

  lemma RetainsCold(c: Cache, threshold: nat)
    requires Stamped(c)
    requires |OfClass(c.files, true)| <= MAX_REPARSE_BASES < |c.files|
    requires |AtMost(Stamps(c.files, OfClass(c.files, false)), threshold)| == |c.files| - MAX_REPARSE_BASES
    ensures Trimmed(c.files) == KeepNewCold(c.files, threshold)
  {
    var cold := OfClass(c.files, false);
    ThresholdCounts(c.files, cold, threshold);
    forall f | f in c.files && !c.files[f].hot
      ensures Survives(c.files, f) <==> c.files[f].used > threshold
    {
      ThresholdIsRank(c.files, cold, threshold, f);
      hide Rank, UpTo;
    }
    hide Rank;
  }

  lemma RetainsHot(c: Cache, threshold: nat)
    requires Stamped(c)
    requires |OfClass(c.files, true)| > MAX_REPARSE_BASES
    requires |AtMost(Stamps(c.files, OfClass(c.files, true)), threshold)| == |OfClass(c.files, true)| - MAX_REPARSE_BASES
    ensures Trimmed(c.files) == KeepNewHot(c.files, threshold)
  {
    var hot := OfClass(c.files, true);
    ThresholdCounts(c.files, hot, threshold);
    forall f | f in c.files && c.files[f].hot
      ensures Survives(c.files, f) <==> c.files[f].used > threshold
    {
      ThresholdIsRank(c.files, hot, threshold, f);
      hide Rank, UpTo;
    }
    hide Rank;
  }
}
