/** When the staged chain can be trusted: replaying what is pending for a file on
    its base gives the current text. The protocol does not promise this for every
    run; `Calm` lists, step by step, what must not happen to the file. */
module ReparseAnchoring {
  import opened Wrappers
  import opened Edits
  import opened ReparseCache
  import opened ReparseProtocol
  import opened Utf8

  /** Replaying the chain on the base, if there is one, ends in the text. */
  ghost predicate Leads(base: Option<PrevParse>, chain: seq<Edit>, text: string) {
    base.Some? ==> TryApply(base.value.text, chain) == Some(text)
  }

  /** What was pending at the peek is still there, and what came after it leaves
      the text as it is. */
  ghost predicate Drains(pending: seq<Edit>, staged: seq<Edit>, text: string) {
    |staged| <= |pending| && TryApply(text, Drained(pending, |staged|)) == Some(text)
  }

  ghost predicate ReaderFits(base: Option<PrevParse>, pending: seq<Edit>, reader: Reader) {
    match reader.phase
    case Started => true
    case Peeked(staged) => Drains(pending, staged, reader.text) && Leads(base, staged, reader.text)
    case Based(staged, own) => Drains(pending, staged, reader.text) && Leads(own, staged, reader.text)
  }

  ghost predicate ReadersFit(s: State, f: SourceFile) {
    forall r :: r in s.readers && s.readers[r].file == f ==> ReaderFits(Prev(s.cache, f), Pending(s.cache, f), s.readers[r])
  }

  ghost predicate ChainAnchored(s: State, f: SourceFile) {
    Prev(s.cache, f).Some? ==> f in s.texts && Leads(Prev(s.cache, f), Pending(s.cache, f), s.texts[f])
  }

  ghost predicate Anchored(s: State, f: SourceFile) {
    ChainAnchored(s, f) && ReadersFit(s, f)
  }

  predicate Peeking(reader: Reader, f: SourceFile) {
    reader.file == f && !reader.phase.Started?
  }

  /** The steps that leave the anchoring of `f` alone: its text changes only by a
      change staged exactly, the chain stays within budget, the entry is not
      dropped, and no two readers of `f` hold a peeked chain when one stores. */
  ghost predicate Calm(p: Parser, s: State, a: Action, f: SourceFile)
    requires Enabled(s, a)
  {
    && (f in s.cache.files ==> f in Next(p, s, a).cache.files)
    && match a
       case Write(g, text) => g == f && f in s.texts ==> s.texts[f] == text
       case Change(g, text, edits) =>
         g == f ==>
           && edits.Some?
           && !OverBudget(Pending(s.cache, f) + edits.value)
           && (f in s.texts ==> TryApply(s.texts[f], edits.value) == Some(text))
       case Finish(r) =>
         s.readers[r].file == f && OutcomeOf(p, s.readers[r]).Fresh? ==>
           forall o :: o in s.readers && o != r ==> !Peeking(s.readers[o], f)
       case Evict(g) => g != f
       case _ => true
  }

  // ---- Steps on other files ----

  ghost predicate SameFile(s: State, t: State, f: SourceFile) {
    && Prev(t.cache, f) == Prev(s.cache, f)
    && Pending(t.cache, f) == Pending(s.cache, f)
    && (f in s.texts ==> f in t.texts && t.texts[f] == s.texts[f])
  }

  lemma SameFileSameReaders(s: State, t: State, f: SourceFile)
    requires Anchored(s, f) && SameFile(s, t, f)
    requires forall r :: r in t.readers && t.readers[r].file == f ==>
      (r in s.readers && t.readers[r] == s.readers[r])
      || ReaderFits(Prev(s.cache, f), Pending(s.cache, f), t.readers[r])
    ensures Anchored(t, f)
  {
    hide ReaderFits, Prev, Pending, Leads;
  }

  lemma PutElsewhere(c: Cache, g: SourceFile, st: FileState, f: SourceFile)
    requires f != g
    ensures StateOf(Put(c, g, st).files, f) == StateOf(c.files, f)
    ensures (f in c.files ==> f in Trim(Put(c, g, st)).files) ==> StateOf(Trim(Put(c, g, st)).files, f) == StateOf(c.files, f)
  {
    hide Survives;
  }

  lemma ChangeElsewhere(p: Parser, s: State, a: Action, f: SourceFile)
    requires a.Change? && Enabled(s, a) && Calm(p, s, a, f) && a.f != f && Anchored(s, f)
    ensures Anchored(Next(p, s, a), f)
  {
    var was := StateOf(s.cache.files, a.f);
    PutElsewhere(s.cache, a.f, Cleared(was), f);
    if a.edits.Some? {
      PutElsewhere(s.cache, a.f, Staged(was, a.edits.value), f);
    }
    hide Put, Trim, Anchored, Staged, Cleared, Logged, OverBudget, StateOf;
    SameFileSameReaders(s, Next(p, s, a), f);
  }

  lemma FinishElsewhere(p: Parser, s: State, r: nat, f: SourceFile)
    requires Enabled(s, Finish(r)) && Calm(p, s, Finish(r), f) && Anchored(s, f)
    requires s.readers[r].file != f || OutcomeOf(p, s.readers[r]).Unchanged?
    ensures Anchored(Next(p, s, Finish(r)), f)
  {
    var reader := s.readers[r];
    match OutcomeOf(p, reader) {
      case Unchanged(_) =>
      case Fresh(parsed, hit) =>
        PutElsewhere(s.cache, reader.file,
                     Stored(StateOf(s.cache.files, reader.file), PrevParse(reader.text, parsed), hit, |reader.phase.staged|), f);
    }
    hide Put, Trim, Anchored, Stored, StateOf, Compute;
    SameFileSameReaders(s, Next(p, s, Finish(r)), f);
  }

  // ---- Steps on the file itself ----

  lemma StagedState(c: Cache, f: SourceFile, chain: seq<Edit>)
    requires Stamped(c) && !OverBudget(Pending(c, f) + chain)
    ensures Prev(Stage(c, f, Some(chain)), f) == Prev(c, f)
    ensures Pending(Stage(c, f, Some(chain)), f) == Pending(c, f) + chain
  {
    var s := Staged(StateOf(c.files, f), chain);
    PutKeepsStamps(c, f, s);
    NewestHotSurvives(Put(c, f, s), f);
    hide Survives, Stamped, OverBudget;
  }

  lemma {:induction false} LeadsOn(base: Option<PrevParse>, chain: seq<Edit>, text: string, more: seq<Edit>, next: string)
    requires Leads(base, chain, text) && TryApply(text, more) == Some(next)
    ensures Leads(base, chain + more, next)
  {
    if base.Some? {
      TryApplyConcat(base.value.text, chain, more);
    }
  }

  lemma {:induction false} DrainsOn(pending: seq<Edit>, staged: seq<Edit>, text: string, more: seq<Edit>)
    requires Drains(pending, staged, text) && TryApply(text, more) == Some(text)
    ensures Drains(pending + more, staged, text)
  {
    TryApplyConcat(text, Drained(pending, |staged|), more);
    assert Drained(pending + more, |staged|) == Drained(pending, |staged|) + more;
    hide TryApply;
  }

  lemma ReaderFitsOn(base: Option<PrevParse>, pending: seq<Edit>, reader: Reader, more: seq<Edit>)
    requires ReaderFits(base, pending, reader) && TryApply(reader.text, more) == Some(reader.text)
    ensures ReaderFits(base, pending + more, reader)
  {
    hide Leads, Drains, TryApply;
    match reader.phase
    case Started =>
    case Peeked(staged) => DrainsOn(pending, staged, reader.text, more);
    case Based(staged, _) => DrainsOn(pending, staged, reader.text, more);
  }

  lemma ReadersFitOn(s: State, f: SourceFile, text: string, more: seq<Edit>)
    requires ReadersFit(s, f) && Current(s.readers, s.texts) && MayWrite(s, f, text)
    requires f in s.texts ==> TryApply(s.texts[f], more) == Some(text)
    ensures forall r :: r in s.readers && s.readers[r].file == f ==>
      ReaderFits(Prev(s.cache, f), Pending(s.cache, f) + more, s.readers[r])
  {
    hide TryApply, ReaderFits, Prev, Pending;
    forall r | r in s.readers && s.readers[r].file == f
      ensures ReaderFits(Prev(s.cache, f), Pending(s.cache, f) + more, s.readers[r])
    {
      ReaderFitsOn(Prev(s.cache, f), Pending(s.cache, f), s.readers[r], more);
    }
  }

  lemma ChangeHere(p: Parser, s: State, a: Action, f: SourceFile)
    requires a.Change? && Enabled(s, a) && Calm(p, s, a, f) && a.f == f && Anchored(s, f)
    requires Stamped(s.cache) && Current(s.readers, s.texts)
    ensures Anchored(Next(p, s, a), f)
  {
    var chain := a.edits.value;
    StagedState(s.cache, f, chain);
    hide TryApply, ReaderFits, Prev, Pending, Stage, Leads, Logged, Stamped, OverBudget;
    ReadersFitOn(s, f, a.text, chain);
    if Prev(s.cache, f).Some? {
      LeadsOn(Prev(s.cache, f), Pending(s.cache, f), s.texts[f], chain, a.text);
    }
  }

  lemma PeekFits(p: Parser, s: State, r: nat)
    requires Enabled(s, Peek(r)) && ChainAnchored(s, s.readers[r].file) && Current(s.readers, s.texts)
    ensures var reader := s.readers[r];
      ReaderFits(Prev(s.cache, reader.file), Pending(s.cache, reader.file), Next(p, s, Peek(r)).readers[r])
  {
    hide Prev, Pending;
  }

  lemma ReadBaseFits(p: Parser, s: State, r: nat)
    requires Enabled(s, ReadBase(r)) && ReadersFit(s, s.readers[r].file)
    ensures var reader := s.readers[r];
      ReaderFits(Prev(s.cache, reader.file), Pending(s.cache, reader.file), Next(p, s, ReadBase(r)).readers[r])
  {
    var reader := s.readers[r];
    assert ReaderFits(Prev(s.cache, reader.file), Pending(s.cache, reader.file), reader);
    hide Prev, Pending, AfterPrev;
  }

  lemma AfterPrevSame(c: Cache, g: SourceFile, f: SourceFile)
    ensures Prev(AfterPrev(c, g), f) == Prev(c, f) && Pending(AfterPrev(c, g), f) == Pending(c, f)
  {
  }

  lemma StoredState(c: Cache, f: SourceFile, prev: PrevParse, hit: bool, n: nat)
    ensures var t := Store(c, f, prev, hit, n);
      Prev(t, f) == None || (Prev(t, f) == Some(prev) && Pending(t, f) == Drained(Pending(c, f), n))
  {
    hide Survives, Drained;
  }

  /** A store by a reader whose chain still drains puts base and chain back in
      step, even when the chain it replaced had lost its base. */
  lemma StoreAnchors(p: Parser, s: State, r: nat, f: SourceFile)
    requires Enabled(s, Finish(r)) && s.readers[r].file == f && OutcomeOf(p, s.readers[r]).Fresh?
    requires Current(s.readers, s.texts)
    requires Drains(Pending(s.cache, f), s.readers[r].phase.staged, s.readers[r].text)
    requires forall o :: o in s.readers && o != r ==> !Peeking(s.readers[o], f)
    ensures Anchored(Next(p, s, Finish(r)), f)
  {
    var reader := s.readers[r];
    var outcome := OutcomeOf(p, reader);
    StoredState(s.cache, f, PrevParse(reader.text, outcome.parsed), outcome.hit, |reader.phase.staged|);
    hide Store, Prev, Pending, Compute, TryApply, Drained;
    var t := Next(p, s, Finish(r));
    forall o | o in t.readers && t.readers[o].file == f
      ensures ReaderFits(Prev(t.cache, f), Pending(t.cache, f), t.readers[o])
    {
      assert !Peeking(s.readers[o], f);
    }
  }

  lemma StepKeepsAnchor(p: Parser, s: State, a: Action, f: SourceFile)
    requires Enabled(s, a) && Calm(p, s, a, f) && Anchored(s, f)
    requires Stamped(s.cache) && Current(s.readers, s.texts)
    ensures Anchored(Next(p, s, a), f)
  {
    var t := Next(p, s, a);
    match a {
      case Change(g, _, _) =>
        if g == f { ChangeHere(p, s, a, f); } else { ChangeElsewhere(p, s, a, f); }
      case Finish(r) =>
        if s.readers[r].file == f && OutcomeOf(p, s.readers[r]).Fresh? {
          assert ReaderFits(Prev(s.cache, f), Pending(s.cache, f), s.readers[r]);
          StoreAnchors(p, s, r, f);
        } else {
          FinishElsewhere(p, s, r, f);
        }
      case Peek(r) =>
        if s.readers[r].file == f { PeekFits(p, s, r); }
        hide ReaderFits, Prev, Pending, ReadersFit, ChainAnchored;
        SameFileSameReaders(s, t, f);
      case ReadBase(r) =>
        AfterPrevSame(s.cache, s.readers[r].file, f);
        if s.readers[r].file == f { ReadBaseFits(p, s, r); }
        hide ReaderFits, Prev, Pending, ReadersFit, ChainAnchored, AfterPrev;
        SameFileSameReaders(s, t, f);
      case Start(r, _) =>
        assert ReaderFits(Prev(s.cache, f), Pending(s.cache, f), t.readers[r]);
        hide ReaderFits, Prev, Pending, ReadersFit, ChainAnchored;
        SameFileSameReaders(s, t, f);
      case Evict(_) =>
        hide ReaderFits, ReadersFit, ChainAnchored;
        SameFileSameReaders(s, t, f);
      case Write(_, _) =>
        hide ReaderFits, Prev, Pending, ReadersFit, ChainAnchored;
        SameFileSameReaders(s, t, f);
      case Cancel(_) =>
        hide ReaderFits, Prev, Pending, ReadersFit, ChainAnchored;
        SameFileSameReaders(s, t, f);
    }
  }

  // ---- Whole runs ----

  ghost predicate CalmRun(p: Parser, s: State, run: seq<Action>, f: SourceFile)
    decreases run
  {
    run != [] ==> Enabled(s, run[0]) && Calm(p, s, run[0], f) && CalmRun(p, Next(p, s, run[0]), run[1..], f)
  }

  lemma {:induction false} RunsStayAnchored(p: Parser, s: State, run: seq<Action>, t: State, f: SourceFile)
    requires Faithful(p) && Safe(p, s) && Anchored(s, f)
    requires Reaches(p, s, run, t) && CalmRun(p, s, run, f)
    ensures Anchored(t, f)
    decreases run
  {
    hide Faithful, Anchored, Calm, Stamped, Current;
    if run != [] {
      StepIsSafe(p, s, run[0]);
      StepKeepsAnchor(p, s, run[0], f);
      RunsStayAnchored(p, Next(p, s, run[0]), run[1..], t, f);
    }
  }

  /** In a run calm for the file, whatever else is interleaved, the pending chain
      replays the base to the current text, and the chain a reader has peeked
      replays the base it read to the text it is parsing: a chain is never turned
      down as stale. */
  lemma ChainsReplay(p: Parser, run: seq<Action>, t: State, f: SourceFile)
    requires Faithful(p) && Reaches(p, INITIAL, run, t) && CalmRun(p, INITIAL, run, f)
    ensures Prev(t.cache, f).Some? ==>
      f in t.texts && TryApply(Prev(t.cache, f).value.text, Pending(t.cache, f)) == Some(t.texts[f])
    ensures forall r :: r in t.readers && t.readers[r].file == f && t.readers[r].phase.Based? && t.readers[r].phase.base.Some? ==>
      TryApply(t.readers[r].phase.base.value.text, t.readers[r].phase.staged) == Some(t.readers[r].text)
  {
    InitialIsSafe(p);
    assert Anchored(INITIAL, f);
    RunsStayAnchored(p, INITIAL, run, t, f);
    hide Faithful, Drains, TryApply, Prev, Pending;
    forall r | r in t.readers && t.readers[r].file == f && t.readers[r].phase.Based? && t.readers[r].phase.base.Some?
      ensures TryApply(t.readers[r].phase.base.value.text, t.readers[r].phase.staged) == Some(t.readers[r].text)
    {
      assert ReaderFits(Prev(t.cache, f), Pending(t.cache, f), t.readers[r]);
    }
  }

  // ---- Recovery ----

  function StagedOf(reader: Reader): seq<Edit>
    requires !reader.phase.Started?
  {
    reader.phase.staged
  }

  /** Reader `r` of `f` has peeked, and what it will drain is still in place. */
  ghost predicate Holding(s: State, r: nat, f: SourceFile) {
    && r in s.readers && Peeking(s.readers[r], f)
    && Drains(Pending(s.cache, f), StagedOf(s.readers[r]), s.readers[r].text)
  }

  lemma PendingElsewhere(p: Parser, s: State, a: Action, f: SourceFile)
    requires Enabled(s, a) && Calm(p, s, a, f)
    requires (a.Change? ==> a.f != f) && (a.Finish? ==> s.readers[a.r].file != f || OutcomeOf(p, s.readers[a.r]).Unchanged?)
    ensures Pending(Next(p, s, a).cache, f) == Pending(s.cache, f)
  {
    match a
    case Change(g, _, edits) =>
      var was := StateOf(s.cache.files, g);
      PutElsewhere(s.cache, g, Cleared(was), f);
      if edits.Some? {
        PutElsewhere(s.cache, g, Staged(was, edits.value), f);
      }
      hide Put, Trim, Staged, Cleared, Logged, OverBudget, StateOf;
    case Finish(r) =>
      var reader := s.readers[r];
      match OutcomeOf(p, reader) {
        case Unchanged(_) =>
        case Fresh(parsed, hit) =>
          PutElsewhere(s.cache, reader.file,
                       Stored(StateOf(s.cache.files, reader.file), PrevParse(reader.text, parsed), hit, |reader.phase.staged|), f);
      }
      hide Put, Trim, Stored, StateOf, Compute;
    case ReadBase(r) => AfterPrevSame(s.cache, s.readers[r].file, f);
    case _ =>
  }

  lemma StepKeepsHolding(p: Parser, s: State, a: Action, r: nat, f: SourceFile)
    requires Enabled(s, a) && Calm(p, s, a, f) && a != Finish(r) && a != Cancel(r)
    requires Stamped(s.cache) && Current(s.readers, s.texts) && Holding(s, r, f)
    ensures Holding(Next(p, s, a), r, f)
  {
    if a.Change? && a.f == f {
      StagedState(s.cache, f, a.edits.value);
      hide Stage, Pending, Prev, Logged, Stamped, OverBudget, Drains, TryApply;
      DrainsOn(Pending(s.cache, f), StagedOf(s.readers[r]), s.readers[r].text, a.edits.value);
    } else {
      PendingElsewhere(p, s, a, f);
      hide Pending, Prev, Stage, Finished, AfterPrev, Dropped, Logged, Stamped, Drains;
    }
  }

  lemma {:induction false} RunsKeepHolding(p: Parser, s: State, run: seq<Action>, t: State, r: nat, f: SourceFile)
    requires Faithful(p) && Safe(p, s) && Holding(s, r, f)
    requires Reaches(p, s, run, t) && CalmRun(p, s, run, f) && Finish(r) !in run && Cancel(r) !in run
    ensures Safe(p, t) && Holding(t, r, f)
    decreases run
  {
    hide Faithful, Holding, Calm, Stamped, Current;
    if run != [] {
      StepIsSafe(p, s, run[0]);
      StepKeepsHolding(p, s, run[0], r, f);
      RunsKeepHolding(p, Next(p, s, run[0]), run[1..], t, r, f);
    }
  }

  /** However a chain was lost, one reader that peeks, is not disturbed and stores
      anchors the file again. */
  lemma StoreRecovers(p: Parser, s: State, r: nat, run: seq<Action>, t: State, f: SourceFile)
    requires Faithful(p) && Safe(p, s) && Enabled(s, Peek(r)) && s.readers[r].file == f
    requires var peeked := Next(p, s, Peek(r));
      Reaches(p, peeked, run, t) && CalmRun(p, peeked, run, f) && Finish(r) !in run && Cancel(r) !in run
    requires Enabled(t, Finish(r)) && Calm(p, t, Finish(r), f) && OutcomeOf(p, t.readers[r]).Fresh?
    ensures Anchored(Next(p, t, Finish(r)), f)
  {
    var peeked := Next(p, s, Peek(r));
    assert Holding(peeked, r, f) by {
      hide Pending;
    }
    StepIsSafe(p, s, Peek(r));
    RunsKeepHolding(p, peeked, run, t, r, f);
    StoreAnchors(p, t, r, f);
  }

  // ---- Handing the base back ----

  /** A reader that hands the base back leaves the chain as it is, so the file is
      anchored afterwards exactly when the chain has no net effect on the text. */
  lemma UnchangedAnchors(p: Parser, s: State, f: SourceFile)
    requires f in s.texts && Prev(s.cache, f).Some? && Prev(s.cache, f).value.text == s.texts[f]
    ensures var after := s.(cache := Alone(p, s.cache, f, s.texts[f]));
      && Pending(after.cache, f) == Pending(s.cache, f)
      && (ChainAnchored(after, f) <==> TryApply(s.texts[f], Pending(s.cache, f)) == Some(s.texts[f]))
  {
    AfterPrevSame(s.cache, f, f);
    hide Prev, Pending, AfterPrev, TryApply;
  }

  /** A change of text that stages no edits: a write, or one staged as unknown. */
  function Unstaged(f: SourceFile, text: string, unknown: bool): Action {
    if unknown then Change(f, text, None) else Write(f, text)
  }

  /** The states after an unstaged change to `other` and a staged change back. */
  function ThereAndBack(p: Parser, s: State, f: SourceFile, other: string, unknown: bool, edits: seq<Edit>): State
    requires s.readers == map[] && f in s.texts
  {
    Next(p, Next(p, s, Unstaged(f, other, unknown)), Change(f, s.texts[f], Some(edits)))
  }

  lemma ThereAndBackState(p: Parser, s: State, f: SourceFile, other: string, unknown: bool, edits: seq<Edit>)
    requires Stamped(s.cache) && s.readers == map[] && f in s.texts
    requires (unknown || Pending(s.cache, f) == []) && !OverBudget(edits)
    ensures var edited := ThereAndBack(p, s, f, other, unknown, edits);
      && edited.texts == s.texts && edited.readers == map[] && Stamped(edited.cache)
      && Prev(edited.cache, f) == Prev(s.cache, f) && Pending(edited.cache, f) == edits
  {
    hide Stamped, OverBudget, Prev, Pending, Stage, Logged;
    var changed := Next(p, s, Unstaged(f, other, unknown));
    UnknownClears(s.cache, f);
    StageKeepsStamps(s.cache, f, None);
    assert [] + edits == edits;
    StageKeepsStamps(changed.cache, f, Some(edits));
    StagedState(changed.cache, f, edits);
    WrittenBack(s.texts, f, other);
  }

  lemma WrittenBack(texts: map<SourceFile, string>, f: SourceFile, other: string)
    requires f in texts
    ensures texts[f := other][f := texts[f]] == texts
  {
  }

  lemma UnknownClears(c: Cache, f: SourceFile)
    ensures Prev(Stage(c, f, None), f) == Prev(c, f) && Pending(Stage(c, f, None), f) == []
  {
  }

  /** After an unstaged change and a staged change back to the base's text, the
      pending chain is the way back; reading the document leaves it there, anchored
      only if the way back happens to change nothing in the text it leads to. */
  lemma UnchangedKeepsStaleChain(p: Parser, s: State, f: SourceFile, other: string, unknown: bool, edits: seq<Edit>)
    requires Stamped(s.cache) && s.readers == map[] && f in s.texts
    requires Prev(s.cache, f).Some? && Prev(s.cache, f).value.text == s.texts[f]
    requires (unknown || Pending(s.cache, f) == []) && !OverBudget(edits)
    ensures var edited := ThereAndBack(p, s, f, other, unknown, edits);
      edited.texts == s.texts
      && var after := edited.(cache := Alone(p, edited.cache, f, s.texts[f]));
         && Pending(after.cache, f) == edits
         && (ChainAnchored(after, f) <==> TryApply(s.texts[f], edits) == Some(s.texts[f]))
  {
    ThereAndBackState(p, s, f, other, unknown, edits);
    hide Stamped, OverBudget, Prev, Pending, TryApply, Unstaged, ThereAndBack, ChainAnchored;
    UnchangedAnchors(p, ThereAndBack(p, s, f, other, unknown, edits), f);
  }

  lemma {:induction false} ReachesOn(p: Parser, s: State, a: seq<Action>, m: State, b: seq<Action>, t: State)
    requires Reaches(p, s, a, m) && Reaches(p, m, b, t)
    ensures Reaches(p, s, a + b, t)
    decreases a
  {
    if a == [] {
      assert a + b == b;
    } else {
      assert (a + b)[0] == a[0] && (a + b)[1..] == a[1..] + b;
      hide Next, Enabled;
      ReachesOn(p, Next(p, s, a[0]), a[1..], m, b, t);
    }
  }

  /** The first parse of a file that is not in the cache yet. */
  lemma FirstParse(p: Parser, c: Cache, f: SourceFile, text: string)
    requires Stamped(c) && f !in c.files && |c.files| < MAX_REPARSE_BASES
    ensures var t := Alone(p, c, f, text);
      Stamped(t) && Prev(t, f) == Some(PrevParse(text, p.parse(text))) && Pending(t, f) == []
  {
    var base := PrevParse(text, p.parse(text));
    assert Alone(p, c, f, text) == Store(c, f, base, false, 0);
    StoreKeepsStamps(c, f, base, false, 0);
    ClassesSplit(c.files);
    StoreDropsItself(c, f, base, false, 0);
    StoredState(c, f, base, false, 0);
    hide Stamped, OfClass;
  }

  const READ: seq<Action> := [Start(0, 0), Peek(0), ReadBase(0), Finish(0)]

  /** Parse "a"; replace it by "" without edits; type the "a" again; read. */
  const STALE_RUN: seq<Action> :=
    [Write(0, "a")] + READ + ([Change(0, "", None), Change(0, "a", Some([Edit(0, 0, "a")]))] + READ)

  /** A run from an empty cache after which text and base agree, nothing is being
      read, and the pending edit would turn the base into another text. */
  lemma StaleRun(p: Parser) returns (t: State)
    ensures Reaches(p, INITIAL, STALE_RUN, t) && t.readers == map[]
    ensures 0 in t.texts && t.texts[0] == "a"
    ensures Prev(t.cache, 0).Some? && Prev(t.cache, 0).value.text == "a"
    ensures Pending(t.cache, 0) == [Edit(0, 0, "a")] && !ChainAnchored(t, 0)
  {
    var e := Edit(0, 0, "a");
    var s1 := Next(p, INITIAL, Write(0, "a"));
    FirstParse(p, s1.cache, 0, "a");
    AloneIsFourSteps(p, s1, 0, 0);
    var s2 := s1.(cache := Alone(p, s1.cache, 0, "a"));
    SmallChain(e);
    ThereAndBackState(p, s2, 0, "", true, [e]);
    UnchangedKeepsStaleChain(p, s2, 0, "", true, [e]);
    var s3 := ThereAndBack(p, s2, 0, "", true, [e]);
    AloneIsFourSteps(p, s3, 0, 0);
    t := s3.(cache := Alone(p, s3.cache, 0, "a"));
    AfterPrevSame(s3.cache, 0, 0);
    StaleRunReaches(p, s1, s2, s3, t);
    hide Stamped, Reaches, OverBudget, Prev, Pending, Alone, ThereAndBack, TryApply, ChainAnchored;
    DoubledText();
  }

  lemma SmallChain(e: Edit)
    requires e.insert == "a"
    ensures !OverBudget([e])
  {
    assert [e][..0] == [] && InsertedLength([]) == 0;
    assert "a"[1..] == "" && ByteLength("a") == 1;
    assert InsertedLength([e]) == InsertedLength([e][..0]) + ByteLength(e.insert);
  }

  lemma DoubledText()
    ensures TryApply("a", [Edit(0, 0, "a")]) == Some("aa")
  {
    assert Apply("a", Edit(0, 0, "a")) == "aa";
  }

  lemma StaleRunReaches(p: Parser, s1: State, s2: State, s3: State, t: State)
    requires s1 == Next(p, INITIAL, Write(0, "a")) && Reaches(p, s1, READ, s2)
    requires s2.readers == map[] && 0 in s2.texts && s2.texts[0] == "a"
    requires s3 == ThereAndBack(p, s2, 0, "", true, [Edit(0, 0, "a")]) && Reaches(p, s3, READ, t)
    ensures Reaches(p, INITIAL, STALE_RUN, t)
  {
    var first := [Write(0, "a")];
    var back := [Change(0, "", None), Change(0, "a", Some([Edit(0, 0, "a")]))];
    assert first[1..] == [] && back[1..] == [back[1]] && back[1..][1..] == [];
    assert Reaches(p, s1, [], s1);
    assert Reaches(p, INITIAL, first, s1);
    var gone := Next(p, s2, back[0]);
    assert Reaches(p, s3, [], s3);
    assert Reaches(p, gone, [back[1]], s3);
    assert Reaches(p, s2, back, s3);
    hide Reaches;
    ReachesOn(p, INITIAL, first, s1, READ, s2);
    ReachesOn(p, s2, back, s3, READ, t);
    ReachesOn(p, INITIAL, first + READ, s2, back + READ, t);
  }
}
