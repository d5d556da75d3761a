/** The incremental parse as a protocol between one writer and any number of
    snapshot readers (src/incremental.rs, src/lsp/analysis_thread.rs). A reader
    takes the text, peeks at the staged chain, reads the base and stores its
    result in separate steps, each atomic under the cache's lock, and may be
    cancelled in between. A write that changes a text waits until no reader is
    live; everything else interleaves freely. */
module ReparseProtocol {
  import opened Wrappers
  import opened Edits
  import opened ReparseCache

  datatype Phase =
    | Started
    | Peeked(staged: seq<Edit>)
    | Based(staged: seq<Edit>, base: Option<PrevParse>)

  datatype Reader = Reader(file: SourceFile, text: string, phase: Phase)

  type Readers = map<nat, Reader>

  /** `log` is every edit ever staged for a file, oldest first. */
  datatype State = State(
    cache: Cache,
    texts: map<SourceFile, string>,
    readers: Readers,
    log: map<SourceFile, seq<Edit>>)

  datatype Action =
    | Write(f: SourceFile, text: string)
    | Change(f: SourceFile, text: string, edits: Option<seq<Edit>>)
    | Evict(f: SourceFile)
    | Start(r: nat, f: SourceFile)
    | Peek(r: nat)
    | ReadBase(r: nat)
    | Finish(r: nat)
    | Cancel(r: nat)

  // ---- What one reader computes ----

  /** `Unchanged` hands the base back and stores nothing; `Fresh` is stored, and
      is a hit when a splice landed. */
  datatype Outcome = Unchanged(parsed: Parsed) | Fresh(parsed: Parsed, hit: bool)

  function Splice(p: Parser, base: PrevParse, staged: seq<Edit>, text: string): Option<Parsed> {
    match ReparseEdits(p, base.text, base.parsed, staged, text)
    case Some(r) => Some(r)
    case None => Reparse(p, base.text, base.parsed, DiffEdit(base.text, text), text)
  }

  function Compute(p: Parser, text: string, staged: seq<Edit>, base: Option<PrevParse>): Outcome {
    if base.Some? && base.value.text == text then Unchanged(base.value.parsed)
    else
      var reparsed := if base.Some? then Splice(p, base.value, staged, text) else None;
      match reparsed
      case Some(r) => Fresh(r, true)
      case None => Fresh(p.parse(text), false)
  }

  predicate TrueParse(p: Parser, base: PrevParse) {
    base.parsed == p.parse(base.text)
  }

  ghost predicate TrueBase(p: Parser, base: Option<PrevParse>) {
    base.Some? ==> TrueParse(p, base.value)
  }

  /** From a true base every route returns what a full parse would, whatever was
      staged. */
  lemma ComputeIsParse(p: Parser, text: string, staged: seq<Edit>, base: Option<PrevParse>)
    requires Faithful(p) && TrueBase(p, base)
    ensures Compute(p, text, staged, base).parsed == p.parse(text)
  {
    if base.Some? {
      DiffEditApplies(base.value.text, text);
      ReparseEditsIsFaithful(p, base.value.text, staged, text);
      assert TrueParse(p, base.value);
      hide DiffEdit, ReparseEdits;
    }
  }

  // ---- Steps ----

  predicate MayWrite(s: State, f: SourceFile, text: string) {
    s.readers == map[] || f !in s.texts || s.texts[f] == text
  }

  predicate Enabled(s: State, a: Action) {
    match a
    case Write(f, text) => MayWrite(s, f, text)
    case Change(f, text, _) => MayWrite(s, f, text)
    case Evict(_) => true
    case Start(r, f) => r !in s.readers && f in s.texts
    case Peek(r) => r in s.readers && s.readers[r].phase.Started?
    case ReadBase(r) => r in s.readers && s.readers[r].phase.Peeked?
    case Finish(r) => r in s.readers && s.readers[r].phase.Based?
    case Cancel(r) => r in s.readers
  }

  function LogOf(log: map<SourceFile, seq<Edit>>, f: SourceFile): seq<Edit> {
    if f in log then log[f] else []
  }

  function Logged(log: map<SourceFile, seq<Edit>>, f: SourceFile, edits: Option<seq<Edit>>): map<SourceFile, seq<Edit>> {
    if edits.Some? then log[f := LogOf(log, f) + edits.value] else log
  }

  function Advance(readers: Readers, r: nat, phase: Phase): Readers
    requires r in readers
  {
    readers[r := readers[r].(phase := phase)]
  }

  function OutcomeOf(p: Parser, reader: Reader): Outcome
    requires reader.phase.Based?
  {
    Compute(p, reader.text, reader.phase.staged, reader.phase.base)
  }

  function Finished(p: Parser, c: Cache, reader: Reader): Cache
    requires reader.phase.Based?
  {
    match OutcomeOf(p, reader)
    case Unchanged(_) => c
    case Fresh(parsed, hit) => Store(c, reader.file, PrevParse(reader.text, parsed), hit, |reader.phase.staged|)
  }

  function Next(p: Parser, s: State, a: Action): State
    requires Enabled(s, a)
  {
    match a
    case Write(f, text) => s.(texts := s.texts[f := text])
    case Change(f, text, edits) =>
      s.(texts := s.texts[f := text], cache := Stage(s.cache, f, edits), log := Logged(s.log, f, edits))
    case Evict(f) => s.(cache := Dropped(s.cache, f))
    case Start(r, f) => s.(readers := s.readers[r := Reader(f, s.texts[f], Started)])
    case Peek(r) => s.(readers := Advance(s.readers, r, Peeked(Pending(s.cache, s.readers[r].file))))
    case ReadBase(r) =>
      var reader := s.readers[r];
      s.(readers := Advance(s.readers, r, Based(reader.phase.staged, Prev(s.cache, reader.file))),
         cache := AfterPrev(s.cache, reader.file))
    case Finish(r) => s.(readers := s.readers - {r}, cache := Finished(p, s.cache, s.readers[r]))
    case Cancel(r) => s.(readers := s.readers - {r})
  }

  const INITIAL: State := State(Cache(map[], 0), map[], map[], map[])

  ghost predicate Reaches(p: Parser, s: State, run: seq<Action>, t: State)
    decreases run
  {
    if run == [] then s == t
    else Enabled(s, run[0]) && Reaches(p, Next(p, s, run[0]), run[1..], t)
  }

  // ---- Safety ----

  ghost predicate TrueBases(p: Parser, files: Files) {
    forall f :: f in files ==> TrueBase(p, files[f].prev)
  }

  ghost predicate TrueReaders(p: Parser, readers: Readers) {
    forall r :: r in readers && readers[r].phase.Based? ==> TrueBase(p, readers[r].phase.base)
  }

  ghost predicate Current(readers: Readers, texts: map<SourceFile, string>) {
    forall r :: r in readers ==> readers[r].file in texts && readers[r].text == texts[readers[r].file]
  }

  predicate IsSuffix(a: seq<Edit>, b: seq<Edit>) {
    |a| <= |b| && b[|b| - |a|..] == a
  }

  ghost predicate Suffixes(files: Files, log: map<SourceFile, seq<Edit>>) {
    forall f :: f in files ==> IsSuffix(files[f].pending, LogOf(log, f))
  }

  ghost predicate Safe(p: Parser, s: State) {
    && Stamped(s.cache)
    && TrueBases(p, s.cache.files)
    && TrueReaders(p, s.readers)
    && Current(s.readers, s.texts)
    && Suffixes(s.cache.files, s.log)
  }

  lemma PutKeepsBases(p: Parser, c: Cache, f: SourceFile, s: FileState)
    requires TrueBases(p, c.files) && TrueBase(p, s.prev)
    ensures TrueBases(p, Put(c, f, s).files) && TrueBases(p, Trim(Put(c, f, s)).files)
  {
    hide TrueBase, Survives;
  }

  lemma PutKeepsSuffixes(c: Cache, f: SourceFile, s: FileState, log: map<SourceFile, seq<Edit>>, longer: map<SourceFile, seq<Edit>>)
    requires Suffixes(c.files, log) && IsSuffix(s.pending, LogOf(longer, f))
    requires forall g :: g != f ==> LogOf(longer, g) == LogOf(log, g)
    ensures Suffixes(Put(c, f, s).files, longer) && Suffixes(Trim(Put(c, f, s)).files, longer)
  {
    hide IsSuffix, Survives, LogOf;
  }

  lemma SuffixGrows(a: seq<Edit>, b: seq<Edit>, more: seq<Edit>)
    requires IsSuffix(a, b)
    ensures IsSuffix(a + more, b + more)
  {
    assert b + more == b[..|b| - |a|] + (a + more);
  }

  lemma SuffixShrinks(a: seq<Edit>, b: seq<Edit>, n: nat)
    requires IsSuffix(a, b)
    ensures IsSuffix(Drained(a, n), b)
  {
  }

  lemma StateIsTrue(p: Parser, s: State, f: SourceFile)
    requires TrueBases(p, s.cache.files) && Suffixes(s.cache.files, s.log)
    ensures TrueBase(p, Prev(s.cache, f)) && IsSuffix(Pending(s.cache, f), LogOf(s.log, f))
  {
  }

  lemma StagedStateIsSafe(p: Parser, c: Cache, f: SourceFile, now: FileState, log: map<SourceFile, seq<Edit>>,
                          longer: map<SourceFile, seq<Edit>>)
    requires TrueBases(p, c.files) && Suffixes(c.files, log)
    requires TrueBase(p, now.prev) && IsSuffix(now.pending, LogOf(longer, f))
    requires forall g :: g != f ==> LogOf(longer, g) == LogOf(log, g)
    ensures TrueBases(p, Put(c, f, now).files) && TrueBases(p, Trim(Put(c, f, now)).files)
    ensures Suffixes(Put(c, f, now).files, longer) && Suffixes(Trim(Put(c, f, now)).files, longer)
  {
    hide TrueBases, Suffixes, TrueBase, IsSuffix, Put, Trim;
    PutKeepsBases(p, c, f, now);
    PutKeepsSuffixes(c, f, now, log, longer);
  }

  lemma ChangeIsSafe(p: Parser, s: State, f: SourceFile, text: string, edits: Option<seq<Edit>>)
    requires Safe(p, s)
    ensures var t := Stage(s.cache, f, edits);
      Stamped(t) && TrueBases(p, t.files) && Suffixes(t.files, Logged(s.log, f, edits))
  {
    hide Stamped, TrueBases, Suffixes, TrueBase, TrueReaders, Current, Put, Trim, Bounded, IsSuffix, LogOf, Logged;
    StageKeepsStamps(s.cache, f, edits);
    StateIsTrue(p, s, f);
    var was := StateOf(s.cache.files, f);
    var log := Logged(s.log, f, edits);
    LogGrows(s.log, f, edits, was.pending);
    match edits
    case None => StagedStateIsSafe(p, s.cache, f, Cleared(was), s.log, log);
    case Some(chain) => StagedStateIsSafe(p, s.cache, f, Staged(was, chain), s.log, log);
  }

  lemma LogGrows(log: map<SourceFile, seq<Edit>>, f: SourceFile, edits: Option<seq<Edit>>, pending: seq<Edit>)
    requires IsSuffix(pending, LogOf(log, f))
    ensures IsSuffix([], LogOf(Logged(log, f, edits), f))
    ensures edits.Some? ==> IsSuffix(Bounded(pending + edits.value), LogOf(Logged(log, f, edits), f))
    ensures forall g :: g != f ==> LogOf(Logged(log, f, edits), g) == LogOf(log, g)
  {
    hide IsSuffix, Bounded;
    EmptyIsSuffix(LogOf(Logged(log, f, edits), f));
    if edits.Some? {
      BoundedIsSuffix(pending, LogOf(log, f), edits.value);
    }
  }

  lemma BoundedIsSuffix(a: seq<Edit>, b: seq<Edit>, more: seq<Edit>)
    requires IsSuffix(a, b)
    ensures IsSuffix(Bounded(a + more), b + more)
  {
    SuffixGrows(a, b, more);
    EmptyIsSuffix(b + more);
    hide IsSuffix, OverBudget;
  }

  lemma EmptyIsSuffix(b: seq<Edit>)
    ensures IsSuffix([], b)
  {
  }

  lemma FinishIsSafe(p: Parser, s: State, r: nat)
    requires Faithful(p) && Safe(p, s) && Enabled(s, Finish(r))
    ensures var t := Finished(p, s.cache, s.readers[r]);
      Stamped(t) && TrueBases(p, t.files) && Suffixes(t.files, s.log)
  {
    var reader := s.readers[r];
    ComputeIsParse(p, reader.text, reader.phase.staged, reader.phase.base);
    StateIsTrue(p, s, reader.file);
    match OutcomeOf(p, reader)
    case Unchanged(_) =>
    case Fresh(parsed, hit) =>
      var base := PrevParse(reader.text, parsed);
      assert TrueParse(p, base);
      hide Faithful, Compute, Stamped, TrueBases, Suffixes, TrueParse, TrueReaders, Current, Put, Trim, IsSuffix;
      var n := |reader.phase.staged|;
      var was := StateOf(s.cache.files, reader.file);
      StoreKeepsStamps(s.cache, reader.file, base, hit, n);
      SuffixShrinks(was.pending, LogOf(s.log, reader.file), n);
      hide Drained, LogOf;
      var now := Stored(was, base, hit, n);
      PutKeepsBases(p, s.cache, reader.file, now);
      PutKeepsSuffixes(s.cache, reader.file, now, s.log, s.log);
  }

  lemma ReadBaseIsSafe(p: Parser, s: State, f: SourceFile)
    requires Safe(p, s)
    ensures var t := AfterPrev(s.cache, f);
      Stamped(t) && TrueBases(p, t.files) && Suffixes(t.files, s.log)
  {
    var was := StateOf(s.cache.files, f);
    StateIsTrue(p, s, f);
    PutKeepsStamps(s.cache, f, was);
    hide Stamped, TrueBases, Suffixes, TrueBase, TrueReaders, Current, Put, Trim, IsSuffix, LogOf;
    PutKeepsBases(p, s.cache, f, was);
    PutKeepsSuffixes(s.cache, f, was, s.log, s.log);
  }

  lemma ReadersStayTrue(p: Parser, s: State, a: Action)
    requires TrueReaders(p, s.readers) && TrueBases(p, s.cache.files) && Suffixes(s.cache.files, s.log) && Enabled(s, a)
    ensures TrueReaders(p, Next(p, s, a).readers)
  {
    if a.ReadBase? {
      StateIsTrue(p, s, s.readers[a.r].file);
    }
    hide TrueBase, TrueBases, Suffixes, Stage, Finished, AfterPrev, Logged, Dropped, Prev, Pending, MayWrite;
  }

  lemma ReadersStayCurrent(p: Parser, s: State, a: Action)
    requires Current(s.readers, s.texts) && Enabled(s, a)
    ensures Current(Next(p, s, a).readers, Next(p, s, a).texts)
  {
    hide Stage, Finished, AfterPrev, Logged, Dropped, Prev, Pending;
  }

  /** Every step keeps every base, in the cache or in a reader's hands, a true
      parse of its own text, every reader on the current text, and every pending
      chain a contiguous suffix of what was staged. */
  lemma StepIsSafe(p: Parser, s: State, a: Action)
    requires Faithful(p) && Safe(p, s) && Enabled(s, a)
    ensures Safe(p, Next(p, s, a))
  {
    ReadersStayTrue(p, s, a);
    ReadersStayCurrent(p, s, a);
    match a {
      case Change(f, text, edits) =>
        ChangeIsSafe(p, s, f, text, edits);
      case Evict(f) =>
        EvictKeepsStamps(s.cache, f);
        assert TrueBases(p, Dropped(s.cache, f).files);
        assert Suffixes(Dropped(s.cache, f).files, s.log);
      case ReadBase(r) =>
        ReadBaseIsSafe(p, s, s.readers[r].file);
      case Finish(r) =>
        FinishIsSafe(p, s, r);
      case Write(_, _) =>
      case Start(_, _) =>
      case Peek(_) =>
      case Cancel(_) =>
    }
    hide Stamped, TrueBases, TrueReaders, Current, Suffixes, Faithful, Stage, Finished, AfterPrev, Logged, Dropped, Prev, Pending;
  }

  /** Over every interleaving, from an empty cache. */
  lemma {:induction false} RunsAreSafe(p: Parser, s: State, run: seq<Action>, t: State)
    requires Faithful(p) && Safe(p, s) && Reaches(p, s, run, t)
    ensures Safe(p, t)
    decreases run
  {
    hide Safe, Faithful;
    if run != [] {
      StepIsSafe(p, s, run[0]);
      RunsAreSafe(p, Next(p, s, run[0]), run[1..], t);
    }
  }

  lemma InitialIsSafe(p: Parser)
    ensures Safe(p, INITIAL)
  {
  }

  /** However the run got there, a reader about to finish returns the full parse of
      the text the file has at that moment. */
  lemma EveryResultIsParse(p: Parser, run: seq<Action>, s: State, r: nat)
    requires Faithful(p) && Reaches(p, INITIAL, run, s) && Enabled(s, Finish(r))
    ensures s.readers[r].file in s.texts
    ensures OutcomeOf(p, s.readers[r]).parsed == p.parse(s.texts[s.readers[r].file])
  {
    InitialIsSafe(p);
    RunsAreSafe(p, INITIAL, run, s);
    ComputeIsParse(p, s.readers[r].text, s.readers[r].phase.staged, s.readers[r].phase.base);
    hide Compute, Faithful;
  }

  // ---- One reader with nothing in between ----

  /** The cache after the four steps of one reader, taken in a row. */
  function Alone(p: Parser, c: Cache, f: SourceFile, text: string): Cache {
    Finished(p, AfterPrev(c, f), Reader(f, text, Based(Pending(c, f), Prev(c, f))))
  }

  lemma AloneIsFourSteps(p: Parser, s: State, r: nat, f: SourceFile)
    requires r !in s.readers && f in s.texts
    ensures Reaches(p, s, [Start(r, f), Peek(r), ReadBase(r), Finish(r)], s.(cache := Alone(p, s.cache, f, s.texts[f])))
  {
    hide Finished, AfterPrev, Prev, Pending;
    var s1 := Next(p, s, Start(r, f));
    var s2 := Next(p, s1, Peek(r));
    var s3 := Next(p, s2, ReadBase(r));
    var s4 := Next(p, s3, Finish(r));
    assert s4.readers == s.readers;
    assert Reaches(p, s4, [], s4);
    assert Reaches(p, s3, [Finish(r)], s4);
    assert [ReadBase(r), Finish(r)][1..] == [Finish(r)];
    assert Reaches(p, s2, [ReadBase(r), Finish(r)], s4);
    assert [Peek(r), ReadBase(r), Finish(r)][1..] == [ReadBase(r), Finish(r)];
    assert Reaches(p, s1, [Peek(r), ReadBase(r), Finish(r)], s4);
    assert [Start(r, f), Peek(r), ReadBase(r), Finish(r)][1..] == [Peek(r), ReadBase(r), Finish(r)];
  }

  lemma AloneKeepsBases(p: Parser, c: Cache, f: SourceFile, text: string)
    requires Faithful(p) && TrueBases(p, c.files)
    ensures TrueBases(p, Alone(p, c, f, text).files)
    ensures Compute(p, text, Pending(c, f), Prev(c, f)).parsed == p.parse(text)
  {
    assert TrueBase(p, Prev(c, f));
    ComputeIsParse(p, text, Pending(c, f), Prev(c, f));
    hide Faithful, Compute, TrueBases, Put, Trim;
    var mid := AfterPrev(c, f);
    PutKeepsBases(p, c, f, StateOf(c.files, f));
    match Compute(p, text, Pending(c, f), Prev(c, f))
    case Unchanged(_) =>
    case Fresh(parsed, hit) =>
      var base := PrevParse(text, parsed);
      assert TrueParse(p, base);
      PutKeepsBases(p, mid, f, Stored(StateOf(mid.files, f), base, hit, |Pending(c, f)|));
  }

  /** The parse of a document by way of the side-channel. */
  method ParsedDocument(cache: ReparseCache, p: Parser, f: SourceFile, text: string) returns (doc: Parsed)
    requires Faithful(p) && Stamped(cache.View()) && TrueBases(p, cache.files)
    modifies cache
    ensures doc == p.parse(text)
    ensures cache.View() == Alone(p, old(cache.View()), f, text)
    ensures Stamped(cache.View()) && TrueBases(p, cache.files)
  {
    AloneKeepsBases(p, cache.View(), f, text);
    hide Faithful, Stamped, TrueBases, ReparseEdits, DiffEdit, Store, AfterPrev, Prev, Pending;
    var staged := cache.ReparsePendingEdits(f);
    var prev := cache.ReparsePrev(f);
    if prev.Some? && prev.value.text == text {
      return prev.value.parsed;
    }
    var reparsed := None;
    if prev.Some? {
      reparsed := ComputeReparseEdits(p, prev.value.text, prev.value.parsed, staged, text);
      if reparsed.None? {
        var edit := ComputeDiffEdit(prev.value.text, text);
        reparsed := Reparse(p, prev.value.text, prev.value.parsed, edit, text);
      }
    }
    doc := if reparsed.Some? then reparsed.value else p.parse(text);
    cache.ReparseStore(f, PrevParse(text, doc), reparsed.Some?, |staged|);
  }
}
