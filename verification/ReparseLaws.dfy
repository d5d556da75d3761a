/** What the reparse side-channel promises (src/incremental.rs), said of its
    entries and of whole runs in plain numbers: what each operation leaves in the
    entry it touches and in the others, which budgets always hold, and which of
    its three routes a reader takes. */
module ReparseLaws {
  import opened Wrappers
  import opened Utf8
  import opened Edits
  import opened ReparseCache
  import opened ReparseProtocol

  // ---- One operation ----

  /** The texts a chain inserts, one after the other. */
  function Inserted(edits: seq<Edit>): string {
    if edits == [] then "" else edits[0].insert + Inserted(edits[1..])
  }

  lemma {:induction false} InsertedLengthSplits(a: seq<Edit>, b: seq<Edit>)
    ensures InsertedLength(a + b) == InsertedLength(a) + InsertedLength(b)
    decreases |b|
  {
    if b == [] {
      assert a + b == a;
    } else {
      var n := |b| - 1;
      assert (a + b)[..|a + b| - 1] == a + b[..n];
      InsertedLengthSplits(a, b[..n]);
    }
  }

  lemma {:induction false} InsertedBytes(edits: seq<Edit>)
    ensures InsertedLength(edits) == |Bytes(Inserted(edits))|
    decreases |edits|
  {
    if edits != [] {
      InsertedBytes(edits[1..]);
      assert edits == [edits[0]] + edits[1..];
      InsertedLengthSplits([edits[0]], edits[1..]);
      assert [edits[0]][..0] == [];
      BytesLength(edits[0].insert);
      BytesConcat(edits[0].insert, Inserted(edits[1..]));
      hide Bytes, ByteLength;
    }
  }

  function PendingOf(files: Files, f: SourceFile): seq<Edit> {
    if f in files then files[f].pending else []
  }

  function BaseOf(files: Files, f: SourceFile): Option<PrevParse> {
    if f in files then files[f].prev else None
  }

  predicate IsHot(files: Files, f: SourceFile) {
    f in files && files[f].hot
  }

  /** The entry of `f` is the newest; every other entry that is left is as it was. */
  ghost predicate Stamps(before: Cache, after: Cache, f: SourceFile) {
    && after.clock == before.clock + 1
    && (f in after.files ==> after.files[f].used == after.clock)
    && forall g :: g in after.files && g != f ==> g in before.files && after.files[g] == before.files[g]
  }

  /** A chain is within the staging budget. */
  ghost predicate WithinBudget(chain: seq<Edit>) {
    |chain| <= 16 && |Bytes(Inserted(chain))| <= 65536
  }

  lemma BudgetIs(chain: seq<Edit>)
    ensures Bounded(chain) == if WithinBudget(chain) then chain else []
  {
    InsertedBytes(chain);
    hide InsertedLength, Bytes, Inserted;
  }

  /** A known chain is appended to what is pending, or everything is cleared when
      that exceeds 16 edits or 65536 inserted bytes; the file becomes hot and stays,
      its base is kept, and at most 64 entries are left. */
  lemma KnownChain(c: Cache, f: SourceFile, chain: seq<Edit>)
    requires Stamped(c)
    ensures var t := Stage(c, f, Some(chain));
      && f in t.files && t.files[f].hot && t.files[f].prev == BaseOf(c.files, f)
      && t.files[f].pending ==
           (if WithinBudget(PendingOf(c.files, f) + chain) then PendingOf(c.files, f) + chain else [])
      && Stamps(c, t, f) && |t.files| <= 64
      && (|c.files.Keys + {f}| <= 64 ==> t.files.Keys == c.files.Keys + {f})
  {
    hide Stamped, Trim, Put, Bounded, WithinBudget, Stamps;
    StageKeepsStamps(c, f, Some(chain));
    BudgetIs(PendingOf(c.files, f) + chain);
    WrittenAndTrimmed(c, f, Staged(StateOf(c.files, f), chain));
  }

  lemma WrittenAndTrimmed(c: Cache, f: SourceFile, s: FileState)
    ensures var t := Trim(Put(c, f, s));
      && Stamps(c, t, f) && (f in t.files ==> t.files[f] == s.(used := c.clock + 1))
      && (|c.files.Keys + {f}| <= 64 ==> t.files.Keys == c.files.Keys + {f})
  {
    var u := Put(c, f, s);
    TrimKeepsEntries(u);
    hide Trimmed;
    assert u.files.Keys == c.files.Keys + {f};
  }

  lemma TrimKeepsEntries(c: Cache)
    ensures forall g :: g in Trimmed(c.files) ==> g in c.files && Trimmed(c.files)[g] == c.files[g]
    ensures |c.files| <= 64 ==> Trimmed(c.files) == c.files
  {
    if |c.files| <= 64 {
      KeepsAll(c);
    }
    hide Survives;
  }

  /** An unknown chain clears what is pending, keeps base and class, and drops
      nothing. */
  lemma UnknownChain(c: Cache, f: SourceFile)
    ensures var t := Stage(c, f, None);
      && t.files.Keys == c.files.Keys + {f} && Stamps(c, t, f)
      && t.files[f].pending == [] && t.files[f].prev == BaseOf(c.files, f) && t.files[f].hot == IsHot(c.files, f)
  {
  }

  /** Reading a base makes its entry the newest and changes nothing else; there is
      no entry for a file that had none. */
  lemma ReadingBase(c: Cache, f: SourceFile)
    requires Stamped(c)
    ensures Prev(c, f) == BaseOf(c.files, f)
    ensures f !in c.files ==> AfterPrev(c, f) == c
    ensures f in c.files ==>
      var t := AfterPrev(c, f);
      && t.files.Keys == c.files.Keys && Stamps(c, t, f) && t.files[f] == c.files[f].(used := t.files[f].used)
      && forall g :: g in t.files && g != f ==> t.files[g].used < t.files[f].used
  {
  }

  /** A stored base is the one given; the chain loses the prefix that was seen, the
      class is kept or raised by a hit, and at most 64 entries are left. */
  lemma StoringBase(c: Cache, f: SourceFile, prev: PrevParse, hit: bool, consumed: nat)
    requires Stamped(c)
    ensures var t := Store(c, f, prev, hit, consumed);
      var was := PendingOf(c.files, f);
      && (f in t.files ==>
            && t.files[f].prev == Some(prev) && t.files[f].hot == (IsHot(c.files, f) || hit)
            && t.files[f].pending == (if consumed <= |was| then was[consumed..] else []))
      && Stamps(c, t, f) && |t.files| <= 64
      && (|c.files.Keys + {f}| <= 64 ==> t.files.Keys == c.files.Keys + {f})
  {
    hide Stamped, Trim, Put, Stamps;
    StoreKeepsStamps(c, f, prev, hit, consumed);
    WrittenAndTrimmed(c, f, Stored(StateOf(c.files, f), prev, hit, consumed));
  }

  /** The cache after one file's edit was staged `n` times over. */
  function StagedOver(c: Cache, f: SourceFile, e: Edit, n: nat): Cache {
    if n == 0 then c else Stage(StagedOver(c, f, e, n - 1), f, Some([e]))
  }

  const TYPED: Edit := Edit(0, 0, "x")

  lemma {:induction false} TypedBytes(n: nat)
    requires n <= 16
    ensures |Bytes(Inserted(seq(n, _ => TYPED)))| == n
    decreases n
  {
    var all := seq(n, _ => TYPED);
    if n > 0 {
      TypedBytes(n - 1);
      assert all[1..] == seq(n - 1, _ => TYPED) && all[0] == TYPED;
      BytesConcat("x", Inserted(all[1..]));
      OneCharacter('x');
      hide Bytes;
    }
  }

  /** Sixteen keystrokes staged before any read are all pending; the seventeenth
      clears them. */
  lemma {:induction false} SeventeenKeystrokes(f: SourceFile, n: nat)
    requires n <= 17
    ensures Stamped(StagedOver(Cache(map[], 0), f, TYPED, n))
    ensures PendingOf(StagedOver(Cache(map[], 0), f, TYPED, n).files, f) == if n <= 16 then seq(n, _ => TYPED) else []
    decreases n
  {
    hide Stamped, Stage, WithinBudget;
    if n == 0 {
      NothingStamped();
      assert seq(0, _ => TYPED) == [];
    } else {
      SeventeenKeystrokes(f, n - 1);
      var c := StagedOver(Cache(map[], 0), f, TYPED, n - 1);
      StageKeepsStamps(c, f, Some([TYPED]));
      KnownChain(c, f, [TYPED]);
      assert seq(n - 1, _ => TYPED) + [TYPED] == seq(n, _ => TYPED);
      TypedBudget(n);
    }
  }

  lemma NothingStamped()
    ensures Stamped(Cache(map[], 0))
  {
  }

  lemma TypedBudget(n: nat)
    requires n <= 17
    ensures WithinBudget(seq(n, _ => TYPED)) <==> n <= 16
  {
    if n <= 16 {
      TypedBytes(n);
    }
    hide Bytes, Inserted;
  }

  /** The cache after unknown changes of the first `n` files. */
  function Piled(n: nat): Cache {
    if n == 0 then Cache(map[], 0) else Stage(Piled(n - 1), n - 1, None)
  }

  /** An unknown change makes an entry and evicts nothing, so the entries themselves
      are not bounded; they hold no base. */
  lemma {:induction false} UnknownChangesPileUp(n: nat)
    ensures |Piled(n).files| == n
    ensures forall f: nat :: f in Piled(n).files <==> f < n
    ensures forall f :: f in Piled(n).files ==> Piled(n).files[f].prev == None
    decreases n
  {
    if n > 0 {
      UnknownChangesPileUp(n - 1);
      UnknownChain(Piled(n - 1), n - 1);
      hide Stage;
      var before, after := Piled(n - 1).files, Piled(n).files;
      assert after.Keys == before.Keys + {n - 1} && n - 1 !in before.Keys;
      assert |after| == |after.Keys| == |before.Keys| + 1 == n;
    }
  }

  // ---- Over whole runs ----

  ghost predicate ChainsBounded(files: Files) {
    forall f :: f in files ==> WithinBudget(files[f].pending)
  }

  /** The files that hold a base. */
  ghost function WithBase(files: Files): set<SourceFile> {
    set f | f in files && files[f].prev.Some?
  }

  ghost predicate Bounds(c: Cache) {
    Stamped(c) && ChainsBounded(c.files) && |WithBase(c.files)| <= 64
  }

  lemma DrainedWithin(chain: seq<Edit>, n: nat)
    requires WithinBudget(chain) && n <= |chain|
    ensures WithinBudget(chain[n..])
  {
    assert chain == chain[..n] + chain[n..];
    InsertedLengthSplits(chain[..n], chain[n..]);
    InsertedBytes(chain);
    InsertedBytes(chain[n..]);
    hide InsertedLength, Bytes, Inserted;
  }

  lemma NothingPending()
    ensures WithinBudget([])
  {
  }

  lemma PendingBounded(c: Cache, f: SourceFile)
    requires ChainsBounded(c.files)
    ensures WithinBudget(PendingOf(c.files, f))
  {
    NothingPending();
    hide WithinBudget;
  }

  /** Bases and chains after a step that writes one entry. */
  lemma OthersBounded(before: Cache, after: Cache, f: SourceFile)
    requires Bounds(before) && Stamps(before, after, f)
    requires f in after.files ==> WithinBudget(after.files[f].pending)
    requires f in after.files && after.files[f].prev.Some? ==> BaseOf(before.files, f).Some? || |after.files| <= 64
    ensures ChainsBounded(after.files) && |WithBase(after.files)| <= 64
  {
    hide WithinBudget, Stamped;
    if |after.files| <= 64 {
      SubsetSize(WithBase(after.files), after.files.Keys);
    } else {
      SubsetSize(WithBase(after.files), WithBase(before.files));
    }
  }

  lemma StageKeepsBounds(c: Cache, f: SourceFile, edits: Option<seq<Edit>>)
    requires Bounds(c)
    ensures Bounds(Stage(c, f, edits))
  {
    StageKeepsStamps(c, f, edits);
    NothingPending();
    if edits.Some? {
      KnownChain(c, f, edits.value);
    } else {
      UnknownChain(c, f);
    }
    hide Stamped, Stage, WithinBudget, Stamps, ChainsBounded, WithBase;
    OthersBounded(c, Stage(c, f, edits), f);
  }

  lemma StoreKeepsBounds(c: Cache, f: SourceFile, prev: PrevParse, hit: bool, consumed: nat)
    requires Bounds(c)
    ensures Bounds(Store(c, f, prev, hit, consumed))
  {
    StoreKeepsStamps(c, f, prev, hit, consumed);
    NothingPending();
    PendingBounded(c, f);
    StoringBase(c, f, prev, hit, consumed);
    if consumed <= |PendingOf(c.files, f)| {
      DrainedWithin(PendingOf(c.files, f), consumed);
    }
    hide Stamped, Store, WithinBudget, Stamps, ChainsBounded, WithBase;
    OthersBounded(c, Store(c, f, prev, hit, consumed), f);
  }

  lemma ReadKeepsBounds(c: Cache, f: SourceFile)
    requires Bounds(c)
    ensures Bounds(AfterPrev(c, f))
  {
    PutKeepsStamps(c, f, StateOf(c.files, f));
    ReadingBase(c, f);
    PendingBounded(c, f);
    hide Stamped, AfterPrev, WithinBudget, Stamps, ChainsBounded, WithBase;
    if f in c.files {
      OthersBounded(c, AfterPrev(c, f), f);
    }
  }

  lemma EvictKeepsBounds(c: Cache, f: SourceFile)
    requires Bounds(c)
    ensures Bounds(Dropped(c, f))
  {
    EvictKeepsStamps(c, f);
    hide WithinBudget, Stamped;
    SubsetSize(WithBase(Dropped(c, f).files), WithBase(c.files));
  }

  lemma StepKeepsBounds(p: Parser, s: State, a: Action)
    requires Bounds(s.cache) && Enabled(s, a)
    ensures Bounds(Next(p, s, a).cache)
  {
    hide Bounds, Stage, Store, AfterPrev, Dropped, Compute, Pending, Prev, Logged, MayWrite;
    match a
    case Change(f, _, edits) => StageKeepsBounds(s.cache, f, edits);
    case Evict(f) => EvictKeepsBounds(s.cache, f);
    case ReadBase(r) => ReadKeepsBounds(s.cache, s.readers[r].file);
    case Finish(r) =>
      var reader := s.readers[r];
      match OutcomeOf(p, reader) {
        case Unchanged(_) =>
        case Fresh(parsed, hit) =>
          StoreKeepsBounds(s.cache, reader.file, PrevParse(reader.text, parsed), hit, |reader.phase.staged|);
      }
    case _ =>
  }

  lemma {:induction false} RunKeepsBounds(p: Parser, s: State, run: seq<Action>, t: State)
    requires Bounds(s.cache) && Reaches(p, s, run, t)
    ensures Bounds(t.cache)
    decreases run
  {
    hide Bounds, Next, Enabled;
    if run != [] {
      StepKeepsBounds(p, s, run[0]);
      RunKeepsBounds(p, Next(p, s, run[0]), run[1..], t);
    }
  }

  /** However the cache is used, from empty: at most 64 files hold a base, and every
      pending chain has at most 16 edits that insert at most 65536 bytes. */
  lemma RunsStayWithinBudget(p: Parser, run: seq<Action>, s: State)
    requires Reaches(p, INITIAL, run, s)
    ensures |WithBase(s.cache.files)| <= 64
    ensures forall f :: f in s.cache.files ==>
      |s.cache.files[f].pending| <= 16 && |Bytes(Inserted(s.cache.files[f].pending))| <= 65536
  {
    assert Bounds(INITIAL.cache) by {
      assert WithBase(map[]) == {};
    }
    RunKeepsBounds(p, INITIAL, run, s);
    hide Bytes, Inserted, Stamped, Reaches;
  }

  // ---- The route a reader takes ----

  /** The texts and trees an edit chain goes through, one splice after another. */
  ghost predicate Splices(p: Parser, texts: seq<string>, trees: seq<Parsed>, edits: seq<Edit>) {
    && |texts| == |trees| == |edits| + 1
    && forall i :: 0 <= i < |edits| ==>
         && edits[i].start <= edits[i].end <= |texts[i]|
         && texts[i + 1] == texts[i][..edits[i].start] + edits[i].insert + texts[i][edits[i].end..]
         && p.splice(texts[i], trees[i], edits[i], texts[i + 1]) == Some(trees[i + 1])
  }

  /** The chain can be spliced all the way from one text and tree to others. */
  ghost predicate Replays(p: Parser, text: string, tree: Parsed, edits: seq<Edit>, after: string, result: Parsed) {
    exists texts, trees ::
      && Splices(p, texts, trees, edits)
      && texts[0] == text && trees[0] == tree && texts[|edits|] == after && trees[|edits|] == result
  }

  lemma {:induction false} ChainSplices(p: Parser, text: string, tree: Parsed, edits: seq<Edit>)
    returns (texts: seq<string>, trees: seq<Parsed>)
    requires SpliceChain(p, text, tree, edits).Some?
    ensures Splices(p, texts, trees, edits) && texts[0] == text && trees[0] == tree
    ensures SpliceChain(p, text, tree, edits) == Some((texts[|edits|], trees[|edits|]))
    decreases edits
  {
    if edits == [] {
      texts, trees := [text], [tree];
    } else {
      var next := Apply(text, edits[0]);
      var step := p.splice(text, tree, edits[0], next).value;
      texts, trees := ChainSplices(p, next, step, edits[1..]);
      texts, trees := [text] + texts, [tree] + trees;
    }
  }

  lemma {:induction false} SplicesChain(p: Parser, texts: seq<string>, trees: seq<Parsed>, edits: seq<Edit>)
    requires Splices(p, texts, trees, edits)
    ensures SpliceChain(p, texts[0], trees[0], edits) == Some((texts[|edits|], trees[|edits|]))
    decreases edits
  {
    if edits != [] {
      assert texts[1] == Apply(texts[0], edits[0]);
      SplicesChain(p, texts[1..], trees[1..], edits[1..]);
    }
  }

  /** A chain is used exactly when it is not empty and can be spliced step by step
      from the base to the text asked for; a single edit is no exception. */
  lemma ChainIsUsed(p: Parser, text: string, tree: Parsed, edits: seq<Edit>, after: string, result: Parsed)
    ensures ReparseEdits(p, text, tree, edits, after) == Some(result) <==>
      edits != [] && Replays(p, text, tree, edits, after, result)
  {
    OneEditChain(p, text, tree, edits, after);
    hide ReparseEdits;
    if SpliceChain(p, text, tree, edits) == Some((after, result)) {
      var texts, trees := ChainSplices(p, text, tree, edits);
    }
    if Replays(p, text, tree, edits, after, result) {
      var texts, trees :|
        && Splices(p, texts, trees, edits)
        && texts[0] == text && trees[0] == tree && texts[|edits|] == after && trees[|edits|] == result;
      SplicesChain(p, texts, trees, edits);
    }
  }

  lemma OneEditChain(p: Parser, text: string, tree: Parsed, edits: seq<Edit>, after: string)
    ensures forall result :: ReparseEdits(p, text, tree, edits, after) == Some(result) <==>
      edits != [] && SpliceChain(p, text, tree, edits) == Some((after, result))
  {
    if |edits| == 1 {
      assert edits[1..] == [];
    }
  }

  /** A reader hands the base back when the text is the base's; otherwise it splices
      the staged chain if that replays, else the single edit between the two texts
      if that splices, and parses in full only when neither works or there is no
      base. */
  lemma RouteTaken(p: Parser, text: string, staged: seq<Edit>, base: Option<PrevParse>)
    ensures base.None? ==> Compute(p, text, staged, base) == Fresh(p.parse(text), false)
    ensures base.Some? && base.value.text == text ==> Compute(p, text, staged, base) == Unchanged(base.value.parsed)
    ensures base.Some? && base.value.text != text ==>
      var b := base.value;
      var direct := p.splice(b.text, b.parsed, DiffEdit(b.text, text), text);
      && (forall r :: staged != [] && Replays(p, b.text, b.parsed, staged, text, r) ==>
            Compute(p, text, staged, base) == Fresh(r, true))
      && ((forall r :: staged == [] || !Replays(p, b.text, b.parsed, staged, text, r)) ==>
            Compute(p, text, staged, base) == if direct.Some? then Fresh(direct.value, true) else Fresh(p.parse(text), false))
  {
    if base.Some? && base.value.text != text {
      var b := base.value;
      DiffEditApplies(b.text, text);
      hide DiffEdit, ReparseEdits, Replays;
      forall r
        ensures ReparseEdits(p, b.text, b.parsed, staged, text) == Some(r) <==>
          staged != [] && Replays(p, b.text, b.parsed, staged, text, r)
      {
        ChainIsUsed(p, b.text, b.parsed, staged, text, r);
      }
    }
  }

  // ---- A stage that lands while a reader is at work ----

  /** The text of a file does not change, so the stage need not wait; the reader
      then stores, and drains just what it had peeked at. */
  lemma StageDuringRead(p: Parser, s: State, r: nat, f: SourceFile, chain: seq<Edit>) returns (t: State)
    requires Stamped(s.cache) && r !in s.readers && f in s.texts
    requires BaseOf(s.cache.files, f).Some? ==> BaseOf(s.cache.files, f).value.text != s.texts[f]
    ensures Reaches(p, s, [Start(r, f), Peek(r), Change(f, s.texts[f], Some(chain)), ReadBase(r), Finish(r)], t)
    ensures t.readers == s.readers && t.texts == s.texts
    ensures PendingOf(t.cache.files, f) == if WithinBudget(PendingOf(s.cache.files, f) + chain) then chain else []
    ensures BaseOf(t.cache.files, f).Some? && BaseOf(t.cache.files, f).value.text == s.texts[f]
  {
    var text, seen := s.texts[f], PendingOf(s.cache.files, f);
    StageKeepsStamps(s.cache, f, Some(chain));
    KnownChain(s.cache, f, chain);
    var staged := Stage(s.cache, f, Some(chain));
    PutKeepsStamps(staged, f, StateOf(staged.files, f));
    ReadingBase(staged, f);
    var read := AfterPrev(staged, f);
    hide Stamped, Stage, Store, AfterPrev, Splice, Prev, WithinBudget, Stamps;
    var reader := Reader(f, text, Based(seen, Prev(staged, f)));
    t := s.(cache := Finished(p, read, reader), log := Logged(s.log, f, Some(chain)));
    FiveSteps(p, s, r, f, chain, t);
    var outcome := Compute(p, text, seen, Prev(staged, f));
    assert outcome.Fresh?;
    var prev := PrevParse(text, outcome.parsed);
    StoringBase(read, f, prev, outcome.hit, |seen|);
    StoreDropsItself(read, f, prev, outcome.hit, |seen|);
  }

  lemma FiveSteps(p: Parser, s: State, r: nat, f: SourceFile, chain: seq<Edit>, t: State)
    requires r !in s.readers && f in s.texts
    requires var staged := Stage(s.cache, f, Some(chain));
      t == s.(cache := Finished(p, AfterPrev(staged, f),
                                Reader(f, s.texts[f], Based(PendingOf(s.cache.files, f), Prev(staged, f)))),
              log := Logged(s.log, f, Some(chain)))
    ensures Reaches(p, s, [Start(r, f), Peek(r), Change(f, s.texts[f], Some(chain)), ReadBase(r), Finish(r)], t)
  {
    hide Stage, Finished, AfterPrev, Prev, Logged, Next, Enabled;
    var change := Change(f, s.texts[f], Some(chain));
    var mid := StepsToStage(p, s, r, f, chain);
    StepsFromStage(p, mid, r);
    assert t == mid.(readers := mid.readers - {r}, cache := t.cache);
    Preceded(p, mid, ReadBase(r), [Finish(r)], t);
    var s1 := Next(p, s, Start(r, f));
    var s2 := Next(p, s1, Peek(r));
    Preceded(p, s2, change, [ReadBase(r)] + [Finish(r)], t);
    Preceded(p, s1, Peek(r), [change] + ([ReadBase(r)] + [Finish(r)]), t);
    Preceded(p, s, Start(r, f), [Peek(r)] + ([change] + ([ReadBase(r)] + [Finish(r)])), t);
    assert [Start(r, f)] + ([Peek(r)] + ([change] + ([ReadBase(r)] + [Finish(r)])))
        == [Start(r, f), Peek(r), change, ReadBase(r), Finish(r)];
  }

  /** The state after a reader has peeked and a stage landed. */
  lemma StepsToStage(p: Parser, s: State, r: nat, f: SourceFile, chain: seq<Edit>) returns (mid: State)
    requires r !in s.readers && f in s.texts
    ensures Enabled(s, Start(r, f))
    ensures var s1 := Next(p, s, Start(r, f)); Enabled(s1, Peek(r))
    ensures var s2 := Next(p, Next(p, s, Start(r, f)), Peek(r));
      Enabled(s2, Change(f, s.texts[f], Some(chain))) && mid == Next(p, s2, Change(f, s.texts[f], Some(chain)))
    ensures mid == s.(cache := Stage(s.cache, f, Some(chain)), log := Logged(s.log, f, Some(chain)),
                      readers := s.readers[r := Reader(f, s.texts[f], Peeked(PendingOf(s.cache.files, f)))])
  {
    hide Stage, Logged;
    var s2 := Next(p, Next(p, s, Start(r, f)), Peek(r));
    assert s2 == s.(readers := s.readers[r := Reader(f, s.texts[f], Peeked(PendingOf(s.cache.files, f)))]);
    mid := Next(p, s2, Change(f, s.texts[f], Some(chain)));
  }

  /** A reader that has peeked reads its base and finishes. */
  lemma StepsFromStage(p: Parser, s: State, r: nat)
    requires r in s.readers && s.readers[r].phase.Peeked?
    ensures Enabled(s, ReadBase(r))
    ensures var reader := s.readers[r];
      var base := Reader(reader.file, reader.text, Based(reader.phase.staged, Prev(s.cache, reader.file)));
      Reaches(p, Next(p, s, ReadBase(r)), [Finish(r)],
              s.(readers := s.readers - {r}, cache := Finished(p, AfterPrev(s.cache, reader.file), base)))
  {
    hide Finished, AfterPrev, Prev;
    var read := Next(p, s, ReadBase(r));
    assert read.readers - {r} == s.readers - {r};
    assert Reaches(p, Next(p, read, Finish(r)), [], Next(p, read, Finish(r)));
  }

  lemma Preceded(p: Parser, s: State, a: Action, run: seq<Action>, t: State)
    requires Enabled(s, a) && Reaches(p, Next(p, s, a), run, t)
    ensures Reaches(p, s, [a] + run, t)
  {
    hide Next, Enabled;
    assert ([a] + run)[1..] == run;
  }

  /** A reader that gives up leaves everything as it was. */
  lemma CancelLeavesNothing(p: Parser, s: State, r: nat, f: SourceFile)
    requires r !in s.readers && f in s.texts
    ensures Reaches(p, s, [Start(r, f), Peek(r), Cancel(r)], s)
  {
    var s1 := Next(p, s, Start(r, f));
    var s2 := Next(p, s1, Peek(r));
    var s3 := Next(p, s2, Cancel(r));
    assert s3.readers == s.readers && s3 == s;
    hide Next;
    assert Reaches(p, s3, [], s);
    Preceded(p, s2, Cancel(r), [], s);
    Preceded(p, s1, Peek(r), [Cancel(r)] + [], s);
    Preceded(p, s, Start(r, f), [Peek(r)] + ([Cancel(r)] + []), s);
    assert [Start(r, f)] + ([Peek(r)] + ([Cancel(r)] + [])) == [Start(r, f), Peek(r), Cancel(r)];
  }

  /** A base evicted while a reader is at work with it is there again when the reader
      has stored its result. */
  lemma EvictDuringRead(p: Parser, s: State, r: nat) returns (t: State)
    requires Stamped(s.cache) && Enabled(s, Finish(r)) && OutcomeOf(p, s.readers[r]).Fresh?
    requires |s.cache.files| < 64
    ensures Reaches(p, s, [Evict(s.readers[r].file), Finish(r)], t)
    ensures BaseOf(t.cache.files, s.readers[r].file)
         == Some(PrevParse(s.readers[r].text, OutcomeOf(p, s.readers[r]).parsed))
    ensures PendingOf(t.cache.files, s.readers[r].file) == []
  {
    var reader := s.readers[r];
    var f := reader.file;
    EvictKeepsStamps(s.cache, f);
    var c := Dropped(s.cache, f);
    assert f !in c.files && |c.files.Keys| <= |s.cache.files.Keys| by {
      SubsetSize(c.files.Keys, s.cache.files.Keys);
    }
    hide Stamped, Store, Dropped, Compute, Stamps;
    var outcome := OutcomeOf(p, reader);
    StoringBase(c, f, PrevParse(reader.text, outcome.parsed), outcome.hit, |reader.phase.staged|);
    var s1 := Next(p, s, Evict(f));
    t := Next(p, s1, Finish(r));
    assert Enabled(s1, Finish(r));
    hide Next;
    assert Reaches(p, t, [], t);
    Preceded(p, s1, Finish(r), [], t);
    Preceded(p, s, Evict(f), [Finish(r)] + [], t);
    assert [Evict(f)] + ([Finish(r)] + []) == [Evict(f), Finish(r)];
  }
}
