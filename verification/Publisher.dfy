/** internal/corpus/publish.go: one publish at a time, whoever asks for it. A run is a sequence of
    small steps (every file written or copied is one), and the steps of any number of callers mix. */
module Publisher {
  import opened Basics
  import opened CorpusSync
  import S = Scheduler

  type Tid = S.Tid

  /** A staged file and the run that wrote it. */
  datatype File = File(content: Content, writer: Tid)

  /** Where a caller of Publish is. A sync that began on the corpus `base` first copies the substance
      files in `todo`, then the files in `extras`; those in `missed` could not be written. Leaving: only
      the deferred Unlock is left. */
  datatype Stage =
    | Calling
    | Preparing
    | Rendering
    | Copying(todo: set<Path>, base: Tree)
    | CopyingExtras(extras: set<Path>, missed: set<Path>, base: Tree)
    | Leaving

  datatype State = State(lock: Option<Tid>, staging: map<Path, File>, corpus: Tree, calls: map<Tid, Stage>)

  datatype Event =
    | Call(tid: Tid)
    | TryLock(tid: Tid)
    | Clear(tid: Tid, kept: set<Path>, ok: bool)
    | Write(tid: Tid, path: Path, content: Content)
    | Decide(tid: Tid, valid: bool, dryRun: bool, doubt: bool)
    | Copy(tid: Tid, path: Path)
    | CopyFails(tid: Tid, path: Path, fault: Fault)
    | SyncFails(tid: Tid)
    | StartExtras(tid: Tid)
    | CopyExtra(tid: Tid, path: Path)
    | ExtraFails(tid: Tid, path: Path, fault: Fault)
    | Finish(tid: Tid)
    | Panic(tid: Tid)
    | Unlock(tid: Tid)

  function Contents(staging: map<Path, File>): Tree {
    map p | p in staging :: staging[p].content
  }

  predicate At(s: State, tid: Tid, stage: Stage) {
    tid in s.calls && s.calls[tid] == stage
  }

  predicate CopiesFiles(s: State, tid: Tid) {
    tid in s.calls && s.calls[tid].Copying?
  }

  predicate CopiesExtras(s: State, tid: Tid) {
    tid in s.calls && s.calls[tid].CopyingExtras?
  }

  predicate InSync(s: State, tid: Tid) {
    CopiesFiles(s, tid) || CopiesExtras(s, tid)
  }

  /** Between prepareStagingDir and the end of finalizePublish. */
  predicate Inside(s: State, tid: Tid) {
    tid in s.calls && !s.calls[tid].Calling? && !s.calls[tid].Leaving?
  }

  predicate Holds(s: State, tid: Tid) {
    tid in s.calls && !s.calls[tid].Calling?
  }

  predicate Allowed(s: State, e: Event) {
    match e
    case Call(tid) => tid !in s.calls
    case TryLock(tid) => At(s, tid, Calling)
    case Clear(tid, kept, ok) => At(s, tid, Preparing) && (ok ==> kept == {})
    case Write(tid, _, _) => At(s, tid, Rendering)
    case Decide(tid, _, _, _) => At(s, tid, Rendering)
    case Copy(tid, p) => CopiesFiles(s, tid) && p in s.calls[tid].todo && p in s.staging
    case CopyFails(tid, p, _) => CopiesFiles(s, tid) && p in s.calls[tid].todo
    case SyncFails(tid) => CopiesFiles(s, tid)
    case StartExtras(tid) => CopiesFiles(s, tid) && s.calls[tid].todo == {}
    case CopyExtra(tid, p) => CopiesExtras(s, tid) && p in s.calls[tid].extras && p in s.staging
    case ExtraFails(tid, p, _) => CopiesExtras(s, tid) && p in s.calls[tid].extras
    case Finish(tid) => CopiesExtras(s, tid) && s.calls[tid].extras == {}
    case Panic(tid) => Inside(s, tid)
    case Unlock(tid) => At(s, tid, Leaving)
  }

  function Skipped(c: Stage, p: Path): Stage
    requires c.CopyingExtras?
  {
    c.(extras := c.extras - {p}, missed := c.missed + {p})
  }

  function After(s: State, e: Event): State
    requires Allowed(s, e)
  {
    match e
    case Call(tid) => s.(calls := s.calls[tid := Calling])
    case TryLock(tid) =>
      if s.lock.None? then s.(lock := Some(tid), calls := s.calls[tid := Preparing])
      else s.(calls := s.calls - {tid})
    case Clear(tid, kept, ok) =>
      s.(staging := map p | p in s.staging && p in kept :: s.staging[p],
         calls := s.calls[tid := if ok then Rendering else Leaving])
    case Write(tid, p, c) => s.(staging := s.staging[p := File(c, tid)])
    case Decide(tid, valid, dryRun, doubt) =>
      if !valid || dryRun || !(doubt || Material(Contents(s.staging), s.corpus)) then
        s.(calls := s.calls[tid := Leaving])
      else s.(calls := s.calls[tid := Copying(Substance(Contents(s.staging)).Keys, s.corpus)])
    case Copy(tid, p) =>
      s.(corpus := s.corpus[p := s.staging[p].content],
         calls := s.calls[tid := s.calls[tid].(todo := s.calls[tid].todo - {p})])
    case CopyFails(tid, p, fault) =>
      s.(corpus := Failed(s.corpus, p, fault), calls := s.calls[tid := Leaving])
    case SyncFails(tid) => s.(calls := s.calls[tid := Leaving])
    case StartExtras(tid) =>
      s.(calls := s.calls[tid := CopyingExtras(ExtrasOf(Contents(s.staging)).Keys, {}, s.calls[tid].base)])
    case CopyExtra(tid, p) =>
      s.(corpus := s.corpus[p := s.staging[p].content],
         calls := s.calls[tid := s.calls[tid].(extras := s.calls[tid].extras - {p})])
    case ExtraFails(tid, p, fault) =>
      s.(corpus := Failed(s.corpus, p, fault), calls := s.calls[tid := Skipped(s.calls[tid], p)])
    case Finish(tid) => s.(calls := s.calls[tid := Leaving])
    case Panic(tid) => s.(calls := s.calls[tid := Leaving])
    case Unlock(tid) => s.(lock := None, calls := s.calls - {tid})
  }

  datatype History = Start(corpus: Tree) | Then(before: History, event: Event)

  predicate Legal(h: History)
    decreases h, 0
  {
    match h
    case Start(_) => true
    case Then(before, e) => Legal(before) && Allowed(StateOf(before), e)
  }

  function StateOf(h: History): State
    requires Legal(h)
    decreases h, 1
  {
    match h
    case Start(corpus) => State(None, map[], corpus, map[])
    case Then(before, e) => After(StateOf(before), e)
  }

  // ---------- Exclusion ----------

  /** The lock is held by exactly the caller that is past it. */
  ghost predicate LockTells(s: State) {
    forall t: Tid :: Holds(s, t) <==> s.lock == Some(t)
  }

  lemma LockStep(s: State, e: Event)
    requires LockTells(s) && Allowed(s, e)
    ensures LockTells(After(s, e))
  {
    assert Holds(s, e.tid) <==> s.lock == Some(e.tid);
    forall t: Tid
      ensures Holds(After(s, e), t) <==> After(s, e).lock == Some(t)
    {
      assert Holds(s, t) <==> s.lock == Some(t);
    }
  }

  lemma {:induction false} AlwaysLockTells(h: History)
    requires Legal(h)
    ensures LockTells(StateOf(h))
  {
    if h.Then? {
      AlwaysLockTells(h.before);
      LockStep(StateOf(h.before), h.event);
    }
  }

  /** Never two callers between prepareStagingDir and finalizePublish. */
  lemma AtMostOneInside(h: History, t: Tid, u: Tid)
    requires Legal(h) && Inside(StateOf(h), t) && Inside(StateOf(h), u)
    ensures t == u
  {
    AlwaysLockTells(h);
    assert Holds(StateOf(h), t) && Holds(StateOf(h), u);
  }

  /** Every way out frees the lock: it is held only while somebody is still on the way. */
  lemma FreeUnlessHeld(h: History)
    requires Legal(h)
    ensures StateOf(h).lock.None? <==> forall t: Tid :: !Holds(StateOf(h), t)
  {
    AlwaysLockTells(h);
    if StateOf(h).lock.Some? {
      assert Holds(StateOf(h), StateOf(h).lock.value);
    }
  }

  /** A caller who does not hold the lock changes neither tree, nor the lock unless it is free. */
  lemma LosersTouchNothing(h: History, e: Event)
    requires Legal(h) && Allowed(StateOf(h), e) && StateOf(h).lock != Some(e.tid)
    ensures var s := StateOf(h); var r := After(s, e);
      && r.staging == s.staging && r.corpus == s.corpus
      && (s.lock.Some? ==> r.lock == s.lock && !Holds(r, e.tid))
  {
    AlwaysLockTells(h);
    assert !Holds(StateOf(h), e.tid);
  }

  // ---------- One run's render, whole ----------

  /** What `tid` itself wrote since it cleared the staging tree. */
  function RenderOf(h: History, tid: Tid): Tree {
    match h
    case Start(_) => map[]
    case Then(before, e) =>
      if e.Clear? && e.tid == tid then map[]
      else if e.Write? && e.tid == tid then RenderOf(before, tid)[e.path := e.content]
      else RenderOf(before, tid)
  }

  /** The corpus `tid` found when it decided to sync. */
  function BaseOf(h: History, tid: Tid): Tree
    requires Legal(h)
  {
    match h
    case Start(corpus) => corpus
    case Then(before, e) => if e.Decide? && e.tid == tid then StateOf(before).corpus else BaseOf(before, tid)
  }

  predicate OwnTree(s: State, render: Tree, tid: Tid) {
    Contents(s.staging) == render && forall p :: p in s.staging ==> s.staging[p].writer == tid
  }

  /** How far the sync of `tid` has come. */
  predicate SyncState(s: State, base: Tree, tid: Tid) {
    var files, extras := Substance(Contents(s.staging)), ExtrasOf(Contents(s.staging));
    && (CopiesFiles(s, tid) ==>
          var c := s.calls[tid];
          c.base == base && c.todo <= files.Keys && Over(s.corpus, base, files, c.todo, {}))
    && (CopiesExtras(s, tid) ==>
          var c := s.calls[tid];
          && c.base == base && c.extras <= extras.Keys
          && (forall p :: p in c.missed ==> p in EXTRAS)
          && Over(s.corpus, base + files, extras, c.extras, c.missed))
  }

  /** Up to the missed files, the corpus is `base` overridden by what has been copied of `out`. */
  predicate Over(corpus: Tree, base: Tree, out: Tree, todo: set<Path>, missed: set<Path>) {
    corpus - missed == (base + (out - todo)) - missed
  }

  predicate Staged(s: State, tid: Tid) {
    At(s, tid, Rendering) || InSync(s, tid)
  }

  lemma WriteContents(staging: map<Path, File>, p: Path, f: File)
    ensures Contents(staging[p := f]) == Contents(staging)[p := f.content]
  {
  }

  lemma OwnTreeStep(s: State, e: Event, render: Tree, tid: Tid)
    requires Allowed(s, e) && OwnTree(s, render, tid) && !(e.Clear? && e.tid == tid)
    requires e.tid != tid ==> After(s, e).staging == s.staging
    ensures OwnTree(After(s, e), if e.Write? && e.tid == tid then render[e.path := e.content] else render, tid)
  {
    if e.Write? && e.tid == tid {
      WriteContents(s.staging, e.path, File(e.content, tid));
    } else if !e.Clear? && !e.Write? {
      assert After(s, e).staging == s.staging;
    }
  }

  lemma StagedBefore(s: State, e: Event, tid: Tid)
    requires Allowed(s, e) && Staged(After(s, e), tid) && !(e.Clear? && e.tid == tid)
    ensures Staged(s, tid)
  {
  }

  /** The steps of others leave both trees of a run inside alone. */
  lemma OthersLeaveTrees(h: History, e: Event, tid: Tid)
    requires Legal(h) && Allowed(StateOf(h), e) && e.tid != tid && Holds(StateOf(h), tid)
    ensures After(StateOf(h), e).staging == StateOf(h).staging && After(StateOf(h), e).corpus == StateOf(h).corpus
  {
    AlwaysLockTells(h);
    assert !Holds(StateOf(h), e.tid);
    LosersTouchNothing(h, e);
  }

  /** Whatever the other callers do, the staging tree of the run inside is its own render, no more and
      no less. */
  lemma {:induction false} StagingIsOwnRender(h: History, tid: Tid)
    requires Legal(h) && Staged(StateOf(h), tid)
    ensures OwnTree(StateOf(h), RenderOf(h, tid), tid)
  {
    if h.Then? {
      var s, e := StateOf(h.before), h.event;
      if e.tid == tid && e.Clear? {
        assert StateOf(h).staging == map[];
      } else {
        StagedBefore(s, e, tid);
        StagingIsOwnRender(h.before, tid);
        if e.tid != tid {
          OthersLeaveTrees(h.before, e, tid);
        }
        OwnTreeStep(s, e, RenderOf(h.before, tid), tid);
      }
    }
  }

  lemma CopyOne(corpus: Tree, base: Tree, out: Tree, todo: set<Path>, missed: set<Path>, p: Path)
    requires Over(corpus, base, out, todo, missed) && p in todo && todo <= out.Keys
    ensures Over(corpus[p := out[p]], base, out, todo - {p}, missed)
  {
    var l, r := corpus[p := out[p]] - missed, (base + (out - (todo - {p}))) - missed;
    assert l.Keys == (corpus - missed).Keys + ({p} - missed);
    assert r.Keys == ((base + (out - todo)) - missed).Keys + ({p} - missed);
    forall q | q in l
      ensures l[q] == r[q]
    {
      if q != p {
        assert (corpus - missed)[q] == ((base + (out - todo)) - missed)[q];
      }
    }
  }

  lemma MissOne(corpus: Tree, base: Tree, out: Tree, todo: set<Path>, missed: set<Path>, p: Path, fault: Fault)
    requires Over(corpus, base, out, todo, missed) && p in todo && todo <= out.Keys
    ensures Over(Failed(corpus, p, fault), base, out, todo - {p}, missed + {p})
  {
    var l, r := Failed(corpus, p, fault) - (missed + {p}), (base + (out - (todo - {p}))) - (missed + {p});
    assert l == (corpus - missed) - {p};
    assert r == ((base + (out - todo)) - missed) - {p};
  }

  lemma NothingCopied(base: Tree, out: Tree)
    ensures Over(base, base, out, out.Keys, {})
  {
    assert base + (out - out.Keys) == base;
  }

  lemma EverythingCopied(corpus: Tree, base: Tree, out: Tree, missed: set<Path>)
    requires Over(corpus, base, out, {}, missed)
    ensures corpus - missed == (base + out) - missed && (missed == {} ==> corpus == base + out)
  {
    assert out - {} == out && corpus - {} == corpus && (base + out) - {} == base + out;
  }

  lemma {:induction false} SyncProgress(h: History, tid: Tid)
    requires Legal(h)
    ensures SyncState(StateOf(h), BaseOf(h, tid), tid)
  {
    if h.Then? {
      SyncProgress(h.before, tid);
      var s, e := StateOf(h.before), h.event;
      if e.tid != tid && InSync(s, tid) {
        AlwaysLockTells(h.before);
        assert Holds(s, tid) && !Holds(s, e.tid);
        LosersTouchNothing(h.before, e);
      }
      if e.tid == tid {
        OwnSyncStep(s, e, BaseOf(h.before, tid));
      }
    }
  }

  lemma OwnSyncStep(s: State, e: Event, base: Tree)
    requires Allowed(s, e) && SyncState(s, base, e.tid)
    ensures SyncState(After(s, e), if e.Decide? then s.corpus else base, e.tid)
  {
    var files, extras := Substance(Contents(s.staging)), ExtrasOf(Contents(s.staging));
    match e
    case Decide(_, _, _, _) => NothingCopied(s.corpus, files);
    case Copy(tid, p) => CopyOne(s.corpus, base, files, s.calls[tid].todo, {}, p);
    case StartExtras(tid) =>
      EverythingCopied(s.corpus, base, files, {});
      NothingCopied(s.corpus, extras);
    case CopyExtra(tid, p) => CopyOne(s.corpus, base + files, extras, s.calls[tid].extras, s.calls[tid].missed, p);
    case ExtraFails(tid, p, fault) =>
      MissOne(s.corpus, base + files, extras, s.calls[tid].extras, s.calls[tid].missed, p, fault);
    case _ =>
  }

  /** When a sync ends, however the steps were mixed, the corpus is the one the run found overridden by
      that run's complete own render, up to extras whose write failed: publishing is atomic. */
  lemma SyncIsAtomic(h: History, tid: Tid)
    requires Legal(h) && Allowed(StateOf(h), Finish(tid))
    ensures var missed := StateOf(h).calls[tid].missed;
      && (forall p :: p in missed ==> p in EXTRAS)
      && StateOf(h).corpus - missed == Synced(RenderOf(h, tid), BaseOf(h, tid)) - missed
  {
    SyncProgress(h, tid);
    StagingIsOwnRender(h, tid);
    var render, base, s := RenderOf(h, tid), BaseOf(h, tid), StateOf(h);
    EverythingCopied(s.corpus, base + Substance(render), ExtrasOf(render), s.calls[tid].missed);
    SyncedIsBoth(render, base);
  }

  /** While nobody syncs, the corpus does not move. */
  lemma CorpusMovesOnlyInSync(h: History, e: Event)
    requires Legal(h) && Allowed(StateOf(h), e) && After(StateOf(h), e).corpus != StateOf(h).corpus
    ensures InSync(StateOf(h), e.tid) && StateOf(h).lock == Some(e.tid)
  {
    AlwaysLockTells(h);
    assert Holds(StateOf(h), e.tid);
  }

  // ---------- What an interrupted sync leaves behind ----------

  /** The last run that began to sync: what it found, its render, and the files it has damaged. */
  datatype Attempt = Attempt(base: Tree, render: Tree, damaged: Tree)

  predicate Damages(e: Event) {
    (e.CopyFails? || e.ExtraFails?) && e.fault.Damage?
  }

  function LastAttempt(h: History): Option<Attempt>
    requires Legal(h)
  {
    match h
    case Start(_) => None
    case Then(before, e) =>
      var last := LastAttempt(before);
      if e.Decide? && CopiesFiles(StateOf(h), e.tid) then
        Some(Attempt(StateOf(before).corpus, RenderOf(before, e.tid), map[]))
      else if Damages(e) && last.Some? then Some(last.value.(damaged := last.value.damaged[e.path := e.fault.left]))
      else last
  }

  /** Nothing is gone; a damaged file is as its failing copy left it, and any other is the run's own or
      the one it found. */
  predicate Mixed(a: Attempt, corpus: Tree) {
    && a.base.Keys <= corpus.Keys
    && a.damaged.Keys <= Outgoing(a.render).Keys * corpus.Keys
    && forall p :: p in corpus ==>
         if p in a.damaged then corpus[p] == a.damaged[p]
         else (p in Outgoing(a.render) && corpus[p] == a.render[p]) || (p in a.base && corpus[p] == a.base[p])
  }

  /** The run that syncs is the last that began to, and never goes back to a file it has damaged. */
  predicate AtWork(s: State, a: Attempt, tid: Tid) {
    InSync(s, tid) ==>
      && Contents(s.staging) == a.render
      && (CopiesFiles(s, tid) ==> a.damaged == map[] && s.calls[tid].todo <= Substance(a.render).Keys)
      && (CopiesExtras(s, tid) ==>
            s.calls[tid].extras <= ExtrasOf(a.render).Keys && s.calls[tid].extras !! a.damaged.Keys)
  }

  ghost predicate AttemptState(h: History)
    requires Legal(h)
  {
    match LastAttempt(h)
    case None => StateOf(h).corpus == FirstCorpus(h) && forall t: Tid :: !InSync(StateOf(h), t)
    case Some(a) => Mixed(a, StateOf(h).corpus) && forall t: Tid :: AtWork(StateOf(h), a, t)
  }

  function FirstCorpus(h: History): Tree {
    match h
    case Start(corpus) => corpus
    case Then(before, _) => FirstCorpus(before)
  }

  lemma OtherAtWork(h: History, a: Attempt, t: Tid)
    requires Legal(h) && h.Then? && h.event.tid != t && AtWork(StateOf(h.before), a, t)
    ensures AtWork(StateOf(h), a, t)
    ensures InSync(StateOf(h), t) <==> InSync(StateOf(h.before), t)
  {
    if InSync(StateOf(h.before), t) {
      OthersLeaveTrees(h.before, h.event, t);
    }
  }

  lemma MixedStep(s: State, e: Event, a: Attempt)
    requires Allowed(s, e) && InSync(s, e.tid) && Mixed(a, s.corpus) && AtWork(s, a, e.tid)
    ensures var b := if Damages(e) then a.(damaged := a.damaged[e.path := e.fault.left]) else a;
      Mixed(b, After(s, e).corpus) && AtWork(After(s, e), b, e.tid)
  {
  }

  lemma NobodyElseInSync(h: History, tid: Tid)
    requires Legal(h) && Holds(StateOf(h), tid)
    ensures forall t: Tid :: InSync(StateOf(h), t) ==> t == tid
  {
    AlwaysLockTells(h);
    assert forall t: Tid :: InSync(StateOf(h), t) ==> Holds(StateOf(h), t);
  }

  lemma {:induction false} AttemptHolds(h: History)
    requires Legal(h)
    ensures AttemptState(h)
  {
    if h.Then? {
      AttemptHolds(h.before);
      if InSync(StateOf(h.before), h.event.tid) {
        SyncStepHolds(h);
      } else if CopiesFiles(StateOf(h), h.event.tid) {
        StagingIsOwnRender(h.before, h.event.tid);
        NobodyElseInSync(h, h.event.tid);
      } else {
        OtherStepHolds(h);
      }
    }
  }

  lemma SyncStepHolds(h: History)
    requires Legal(h) && h.Then? && AttemptState(h.before) && InSync(StateOf(h.before), h.event.tid)
    ensures AttemptState(h)
  {
    var tid := h.event.tid;
    NobodyElseInSync(h.before, tid);
    MixedStep(StateOf(h.before), h.event, LastAttempt(h.before).value);
    forall t: Tid | t != tid
      ensures !InSync(StateOf(h), t)
    {
      OtherAtWork(h, LastAttempt(h.before).value, t);
    }
  }

  lemma OtherStepHolds(h: History)
    requires Legal(h) && h.Then? && AttemptState(h.before)
    requires !InSync(StateOf(h.before), h.event.tid) && !CopiesFiles(StateOf(h), h.event.tid)
    ensures AttemptState(h)
  {
    assert LastAttempt(h) == LastAttempt(h.before);
    if StateOf(h).corpus != StateOf(h.before).corpus {
      CorpusMovesOnlyInSync(h.before, h.event);
    }
    forall t: Tid
      ensures LastAttempt(h).None? ==> !InSync(StateOf(h), t)
      ensures LastAttempt(h).Some? ==> AtWork(StateOf(h), LastAttempt(h).value, t)
    {
      if t != h.event.tid && LastAttempt(h).Some? {
        OtherAtWork(h, LastAttempt(h).value, t);
      } else if t != h.event.tid {
        assert !InSync(StateOf(h.before), t);
      }
    }
  }

  /** At every moment, wherever a copy failed, a tree could not be opened or a run panicked: the corpus is
      what the last run that began to sync had found, mixed with that run's own files and the ones it has
      damaged. No file is ever lost. */
  lemma CorpusIsMixed(h: History)
    requires Legal(h)
    ensures match LastAttempt(h)
            case None => StateOf(h).corpus == FirstCorpus(h)
            case Some(a) => Mixed(a, StateOf(h).corpus)
  {
    AttemptHolds(h);
  }

  // ---------- Damage and repair ----------

  /** The files whose last copy was cut off in the middle. */
  function Damaged(h: History): set<Path> {
    match h
    case Start(_) => {}
    case Then(before, e) =>
      if Damages(e) then Damaged(before) + {e.path}
      else if e.Copy? || e.CopyExtra? then Damaged(before) - {e.path}
      else Damaged(before)
  }

  /** What the last complete copy of `p` was to write: that file of the copying run's own render. */
  function Proper(h: History, p: Path): Option<Content> {
    match h
    case Start(corpus) => if p in corpus then Some(corpus[p]) else None
    case Then(before, e) =>
      if (e.Copy? || e.CopyExtra?) && e.path == p && p in RenderOf(before, e.tid) then
        Some(RenderOf(before, e.tid)[p])
      else Proper(before, p)
  }

  /** Over any history, a file that is not damaged is exactly as one run rendered it, or as it was at the
      start, and one that is not there was never copied. */
  lemma {:induction false} UndamagedIsProper(h: History, p: Path)
    requires Legal(h) && p !in Damaged(h)
    ensures Proper(h, p) == if p in StateOf(h).corpus then Some(StateOf(h).corpus[p]) else None
  {
    if h.Then? {
      var e := h.event;
      if (e.Copy? || e.CopyExtra?) && e.path == p {
        StagingIsOwnRender(h.before, e.tid);
        assert p in Contents(StateOf(h.before).staging);
      } else {
        UndamagedIsProper(h.before, p);
      }
    }
  }

  /** What was damaged when `tid` began its sync. */
  function DamagedBefore(h: History, tid: Tid): set<Path> {
    match h
    case Start(_) => {}
    case Then(before, e) => if e.Decide? && e.tid == tid then Damaged(before) else DamagedBefore(before, tid)
  }

  /** How far the sync of `tid` has repaired `was`. */
  ghost predicate Repairing(s: State, was: set<Path>, now: set<Path>, tid: Tid) {
    var files, extras := Substance(Contents(s.staging)).Keys, ExtrasOf(Contents(s.staging)).Keys;
    && (CopiesFiles(s, tid) ==> now == was - (files - s.calls[tid].todo))
    && (CopiesExtras(s, tid) ==>
          var c := s.calls[tid];
          AgreeBut(c.missed, now, (was - files) - (extras - c.extras)))
  }

  ghost predicate AgreeBut(missed: set<Path>, a: set<Path>, b: set<Path>) {
    forall p :: p !in missed ==> (p in a <==> p in b)
  }

  lemma RepairStep(s: State, e: Event, was: set<Path>, now: set<Path>)
    requires Allowed(s, e) && InSync(s, e.tid) && Repairing(s, was, now, e.tid)
    requires CopiesFiles(s, e.tid) ==> s.calls[e.tid].todo <= Substance(Contents(s.staging)).Keys
    requires CopiesExtras(s, e.tid) ==> s.calls[e.tid].extras <= ExtrasOf(Contents(s.staging)).Keys
    ensures var after := if Damages(e) then now + {e.path} else if e.Copy? || e.CopyExtra? then now - {e.path} else now;
      Repairing(After(s, e), was, after, e.tid)
  {
  }

  lemma {:induction false} RepairProgress(h: History, tid: Tid)
    requires Legal(h)
    ensures Repairing(StateOf(h), DamagedBefore(h, tid), Damaged(h), tid)
  {
    if h.Then? {
      RepairProgress(h.before, tid);
      var s, e := StateOf(h.before), h.event;
      if e.tid != tid && InSync(s, tid) {
        OthersLeaveTrees(h.before, e, tid);
        AlwaysLockTells(h.before);
        assert Holds(s, tid) && !Holds(s, e.tid);
      } else if e.tid == tid && InSync(s, tid) {
        SyncProgress(h.before, tid);
        RepairStep(s, e, DamagedBefore(h.before, tid), Damaged(h.before));
      }
    }
  }

  /** A sync that comes to its end has repaired exactly the damaged files that are in its render; only the
      extras it has missed are left out of account. */
  lemma CompletedSyncRepairs(h: History, tid: Tid)
    requires Legal(h) && Allowed(StateOf(h), Finish(tid))
    ensures var missed := StateOf(h).calls[tid].missed;
      Damaged(h) - missed == (DamagedBefore(h, tid) - Outgoing(RenderOf(h, tid)).Keys) - missed
  {
    RepairProgress(h, tid);
    StagingIsOwnRender(h, tid);
    var render := RenderOf(h, tid);
    var rest := (DamagedBefore(h, tid) - Substance(render).Keys) - ExtrasOf(render).Keys;
    assert rest == DamagedBefore(h, tid) - Outgoing(render).Keys;
    assert AgreeBut(StateOf(h).calls[tid].missed, Damaged(h), rest);
  }

  // ---------- Under the scheduler ----------

  /** The two registered steps that publish. */
  const PUBLISH_STEPS: set<string> := {"corpus.publish", "sync.assess_teams_publish_weekly"}

  datatype JointEvent = Sched(s: S.Event) | Pub(p: Event)

  datatype Joint = Begun(corpus: Tree) | Next(before: Joint, event: JointEvent)

  function SchedOf(j: Joint): S.History {
    match j
    case Begun(_) => S.Start
    case Next(before, Sched(e)) => S.Then(SchedOf(before), e)
    case Next(before, Pub(_)) => SchedOf(before)
  }

  function PubOf(j: Joint): History {
    match j
    case Begun(corpus) => Start(corpus)
    case Next(before, Sched(_)) => PubOf(before)
    case Next(before, Pub(e)) => Then(PubOf(before), e)
  }

  predicate InPublishStep(s: S.State, tid: Tid) {
    tid in s.threads && s.threads[tid].phase.Running? && s.threads[tid].step in PUBLISH_STEPS
  }

  /** Publish is called from a running publish step, which cannot return while the call is open. */
  predicate JointlyAllowed(s: S.State, p: State, e: JointEvent) {
    match e
    case Sched(e) => S.Allowed(s, e) && ((e.Return? || e.Goexit?) ==> e.tid !in p.calls)
    case Pub(e) => Allowed(p, e) && (e.Call? ==> InPublishStep(s, e.tid))
  }

  predicate JointlyLegal(j: Joint)
    ensures JointlyLegal(j) ==> S.Legal(SchedOf(j)) && Legal(PubOf(j))
  {
    match j
    case Begun(_) => true
    case Next(before, e) =>
      && JointlyLegal(before)
      && JointlyAllowed(S.StateOf(SchedOf(before)), StateOf(PubOf(before)), e)
  }

  lemma JointStep(s: S.State, p: State, e: JointEvent, t: Tid)
    requires JointlyAllowed(s, p, e) && (t in p.calls ==> InPublishStep(s, t))
    ensures e.Sched? ==> t in p.calls ==> InPublishStep(S.After(s, e.s), t)
    ensures e.Pub? ==> t in After(p, e.p).calls ==> InPublishStep(s, t)
  {
  }

  /** Whoever is inside Publish is an active publish run of the scheduler. */
  lemma {:induction false} CallersAreRunning(j: Joint, t: Tid)
    requires JointlyLegal(j) && t in StateOf(PubOf(j)).calls
    ensures InPublishStep(S.StateOf(SchedOf(j)), t)
  {
    if j.Next? {
      var s, p := S.StateOf(SchedOf(j.before)), StateOf(PubOf(j.before));
      if t in p.calls {
        CallersAreRunning(j.before, t);
      }
      JointStep(s, p, j.event, t);
    }
  }

  /** So the publish lock can never outlive the run that took it: with no publish step active, it is
      free, and a held lock belongs to a name whose running flag is up. */
  lemma LockBelongsToActiveRun(j: Joint)
    requires JointlyLegal(j)
    ensures var s := S.StateOf(SchedOf(j)); var p := StateOf(PubOf(j));
      p.lock.Some? ==> InPublishStep(s, p.lock.value) && s.threads[p.lock.value].name in s.running
  {
    var s, p := S.StateOf(SchedOf(j)), StateOf(PubOf(j));
    AlwaysLockTells(PubOf(j));
    if p.lock.Some? {
      assert Holds(p, p.lock.value);
      CallersAreRunning(j, p.lock.value);
      S.AlwaysExclusive(SchedOf(j));
      assert S.Active(s, p.lock.value);
    }
  }

  ghost predicate Overlap(j: Joint, t: Tid, u: Tid)
    requires JointlyLegal(j)
  {
    var s, p := S.StateOf(SchedOf(j)), StateOf(PubOf(j));
    && InPublishStep(s, t) && InPublishStep(s, u)
    && s.threads[t].name != s.threads[u].name && s.threads[t].step == s.threads[u].step
    && Inside(p, t) && At(p, u, Calling)
  }

  function Setup(): Joint {
    var a := Next(Begun(map[]), Sched(S.Register("corpus.publish", 0)));
    var b := Next(a, Sched(S.AddJob("publish_daily", "corpus.publish", true)));
    var c := Next(b, Sched(S.Tick(1, 0)));
    Next(c, Sched(S.Trigger(2, false, "manual:corpus.publish", "corpus.publish")))
  }

  lemma SetupLegal()
    ensures JointlyLegal(Setup()) && StateOf(PubOf(Setup())) == State(None, map[], map[], map[])
    ensures var s := S.StateOf(SchedOf(Setup()));
      && s.running == {}
      && s.threads == map[1 := S.Thread("publish_daily", "corpus.publish", 0, S.Spawned),
                          2 := S.Thread("manual:corpus.publish", "corpus.publish", 0, S.Spawned)]
  {
  }

  function BothRun(): Joint {
    Next(Next(Setup(), Sched(S.Begin(1, 0))), Sched(S.Begin(2, 0)))
  }

  lemma BothRunLegal()
    ensures JointlyLegal(BothRun()) && StateOf(PubOf(BothRun())) == State(None, map[], map[], map[])
    ensures S.StateOf(SchedOf(BothRun())).threads
            == map[1 := S.Thread("publish_daily", "corpus.publish", 0, S.Running(0)),
                   2 := S.Thread("manual:corpus.publish", "corpus.publish", 0, S.Running(0))]
  {
    SetupLegal();
    var a := Next(Setup(), Sched(S.Begin(1, 0)));
    assert JointlyLegal(a);
    assert "manual:corpus.publish"[0] != "publish_daily"[0];
  }

  /** The running flags alone do not exclude this: the cron job and the manual trigger of the same step
      run under different names, and both reach Publish. The lock is needed. */
  lemma DistinctNamesOverlap()
    ensures exists j, t: Tid, u: Tid :: JointlyLegal(j) && Overlap(j, t, u)
  {
    BothRunLegal();
    var c := Next(BothRun(), Pub(Call(1)));
    assert JointlyLegal(c);
    var d := Next(c, Pub(Call(2)));
    assert JointlyLegal(d);
    var e := Next(d, Pub(TryLock(1)));
    assert JointlyLegal(e);
    assert "manual:corpus.publish"[0] != "publish_daily"[0];
    assert Overlap(e, 1, 2);
  }

  // ---------- The publisher object ----------

  datatype Removal = Removed | NotEmpty | Broken

  /** The outcomes of everything outside the program's control during one run. */
  datatype World = World(
    removals: nat -> Removal,
    kept: set<Path>,
    mkdir: bool,
    render: Tree,
    valid: bool,
    listed: bool,
    readable: Path -> bool,
    rooted: bool,
    writes: Trouble,
    extraWrites: Trouble)

  datatype Result =
    | InProgress
    | StagingFailed
    | ValidationFailed
    | DryRun
    | NoChanges
    | SyncFailed
    | Committed

  /** The first three attempts run into nothing worse than ENOTEMPTY, and one succeeds. */
  predicate Clears(removals: nat -> Removal) {
    || removals(0).Removed?
    || (removals(0).NotEmpty? && removals(1).Removed?)
    || (removals(0).NotEmpty? && removals(1).NotEmpty? && removals(2).Removed?)
  }

  /** How a run that gets the lock ends. */
  ghost function Expected(w: World, dryRun: bool, corpus: Tree): Result {
    if !(Clears(w.removals) && w.mkdir) then StagingFailed
    else if !w.valid then ValidationFailed
    else if dryRun then DryRun
    else if w.listed && !Material(w.render, corpus) && !Doubtful(w.readable, w.render) then NoChanges
    else if !w.rooted || !Clean(w.writes, Substance(w.render)) then SyncFailed
    else Committed
  }

  /** The staging directory could be made: one of three removals succeeds behind nothing worse than ENOTEMPTY. */
  ghost predicate Prepared(w: World) {
    && w.mkdir
    && exists k: nat :: k < 3 && w.removals(k).Removed? && forall i: nat :: i < k ==> w.removals(i).NotEmpty?
  }

  /** The comparison finds something: the corpus cannot be listed, a staged file cannot be compared, or some
      substance file is on one side only or not the same on both. */
  ghost predicate Finds(w: World, corpus: Tree) {
    || !w.listed
    || (exists p :: p in w.render && IsSubstance(p) && !w.readable(p))
    || (exists p :: IsSubstance(p) && ((p in w.render) != (p in corpus)
                                       || (p in w.render && p in corpus && w.render[p] != corpus[p])))
  }

  /** Both trees can be opened and every substance file can be copied. */
  ghost predicate Copies(w: World) {
    w.rooted && forall p :: p in w.render && IsSubstance(p) ==> w.writes(p).None?
  }

  /** The same, result by result. */
  lemma ExpectedIff(w: World, dryRun: bool, corpus: Tree)
    ensures var r := Expected(w, dryRun, corpus);
      && (r.StagingFailed? <==> !Prepared(w))
      && (r.ValidationFailed? <==> Prepared(w) && !w.valid)
      && (r.DryRun? <==> Prepared(w) && w.valid && dryRun)
      && (r.NoChanges? <==> Prepared(w) && w.valid && !dryRun && !Finds(w, corpus))
      && (r.SyncFailed? <==> Prepared(w) && w.valid && !dryRun && Finds(w, corpus) && !Copies(w))
      && (r.Committed? <==> Prepared(w) && w.valid && !dryRun && Finds(w, corpus) && Copies(w))
  {
    ClearsIff(w.removals);
    FindsIff(w, corpus);
    assert Copies(w) <==> w.rooted && Clean(w.writes, Substance(w.render));
  }

  lemma ClearsIff(removals: nat -> Removal)
    ensures Clears(removals) <==>
            exists k: nat :: k < 3 && removals(k).Removed? && forall i: nat :: i < k ==> removals(i).NotEmpty?
  {
    if Clears(removals) {
      var k: nat := if removals(0).Removed? then 0 else if removals(1).Removed? then 1 else 2;
      assert k < 3 && removals(k).Removed? && forall i: nat :: i < k ==> removals(i).NotEmpty?;
    }
  }

  lemma FindsIff(w: World, corpus: Tree)
    ensures Finds(w, corpus) <==> !w.listed || Material(w.render, corpus) || Doubtful(w.readable, w.render)
  {
    if Doubtful(w.readable, w.render) {
      var p :| p in Substance(w.render) && !w.readable(p);
    }
    if p :| p in w.render && IsSubstance(p) && !w.readable(p) {
      assert p in Substance(w.render);
    }
    if p :| IsSubstance(p) && ((p in w.render) != (p in corpus)
                               || (p in w.render && p in corpus && w.render[p] != corpus[p])) {
      assert p in Substance(w.render) <==> p in w.render;
      assert p in Substance(corpus) <==> p in corpus;
    } else {
      assert Substance(w.render) == Substance(corpus);
    }
  }

  /** What each result says about the corpus. */
  ghost predicate Outcome(r: Result, w: World, was: Tree, corpus: Tree) {
    && (!r.SyncFailed? && !r.Committed? ==> corpus == was)
    && (r.SyncFailed? ==> AllFromCopy(w.writes, Substance(w.render), was, corpus))
    && (r.Committed? ==> AllFromCopy(w.extraWrites, ExtrasOf(w.render), was + Substance(w.render), corpus))
    && (r.Committed? && Clean(w.extraWrites, ExtrasOf(w.render)) ==> corpus == Synced(w.render, was))
  }

  function Files(tree: Tree, writer: Tid): map<Path, File> {
    map p | p in tree :: File(tree[p], writer)
  }

  lemma FilesContents(tree: Tree, writer: Tid)
    ensures Contents(Files(tree, writer)) == tree
  {
  }

  class Publisher {
    /** sync.Mutex, taken with TryLock; `holder` is who took it last. */
    var locked: bool
    var staging: map<Path, File>
    var corpus: Tree
    ghost var holder: Tid
    ghost var calls: map<Tid, Stage>

    constructor (corpus: Tree)
      ensures View() == StateOf(Start(corpus))
    {
      locked, staging, this.corpus, calls := false, map[], corpus, map[];
    }

    ghost function View(): State
      reads this
    {
      State(if locked then Some(holder) else None, staging, corpus, calls)
    }

    // Each of the following is one step.

    method Enter(tid: Tid)
      requires Allowed(View(), Call(tid))
      modifies `calls
      ensures View() == After(old(View()), Call(tid))
    {
      calls := calls[tid := Calling];
    }

    method TryLock(tid: Tid) returns (ok: bool)
      requires Allowed(View(), Event.TryLock(tid))
      modifies this
      ensures View() == After(old(View()), Event.TryLock(tid))
      ensures ok <==> !old(locked)
    {
      if locked {
        calls := calls - {tid};
        return false;
      }
      locked, holder := true, tid;
      calls := calls[tid := Preparing];
      return true;
    }

    method ClearStaging(tid: Tid, kept: set<Path>, ok: bool)
      requires Allowed(View(), Clear(tid, kept, ok))
      modifies `staging, `calls
      ensures View() == After(old(View()), Clear(tid, kept, ok))
    {
      staging := map p | p in staging && p in kept :: staging[p];
      calls := calls[tid := if ok then Rendering else Leaving];
    }

    method WriteFile(tid: Tid, p: Path, content: Content)
      requires Allowed(View(), Write(tid, p, content))
      modifies `staging
      ensures View() == After(old(View()), Write(tid, p, content))
      ensures staging == old(staging)[p := File(content, tid)]
    {
      staging := staging[p := File(content, tid)];
    }

    /** From the verdict of the validation to the decision whether to sync; None is to go on and sync. */
    method DecideSync(tid: Tid, digest: Content -> nat, w: World, dryRun: bool) returns (r: Option<Result>)
      requires NoCollision(digest) && At(View(), tid, Rendering)
      modifies `calls
      ensures View() == After(old(View()), Decide(tid, w.valid, dryRun,
                          !w.listed || Doubtful(w.readable, Contents(old(staging)))))
      ensures r.None? <==> CopiesFiles(View(), tid)
      ensures r.Some? ==>
                r.value == if !w.valid then ValidationFailed else if dryRun then DryRun else NoChanges
    {
      if !w.valid {
        calls := calls[tid := Leaving];
        return Some(ValidationFailed);
      }
      if dryRun {
        calls := calls[tid := Leaving];
        return Some(DryRun);
      }
      var render := Contents(staging);
      var entries := if w.listed then Some(Listing(corpus)) else None;
      var changed := MaterialChanges(digest, entries, w.readable, render, corpus);
      if !changed {
        calls := calls[tid := Leaving];
        return Some(NoChanges);
      }
      calls := calls[tid := Copying(Substance(render).Keys, corpus)];
      return None;
    }

    method CopyFile(tid: Tid, p: Path)
      requires Allowed(View(), Copy(tid, p))
      modifies `corpus, `calls
      ensures View() == After(old(View()), Copy(tid, p))
    {
      corpus := corpus[p := staging[p].content];
      calls := calls[tid := calls[tid].(todo := calls[tid].todo - {p})];
    }

    method FailFile(tid: Tid, p: Path, fault: Fault)
      requires Allowed(View(), CopyFails(tid, p, fault))
      modifies `corpus, `calls
      ensures View() == After(old(View()), CopyFails(tid, p, fault))
    {
      corpus := Failed(corpus, p, fault);
      calls := calls[tid := Leaving];
    }

    method CopyExtraFile(tid: Tid, p: Path)
      requires Allowed(View(), CopyExtra(tid, p))
      modifies `corpus, `calls
      ensures View() == After(old(View()), CopyExtra(tid, p))
    {
      corpus := corpus[p := staging[p].content];
      calls := calls[tid := calls[tid].(extras := calls[tid].extras - {p})];
    }

    method FailExtraFile(tid: Tid, p: Path, fault: Fault)
      requires Allowed(View(), ExtraFails(tid, p, fault))
      modifies `corpus, `calls
      ensures View() == After(old(View()), ExtraFails(tid, p, fault))
    {
      corpus := Failed(corpus, p, fault);
      calls := calls[tid := Skipped(calls[tid], p)];
    }

    /** A step of a sync that moves no file: giving up, going on to the extras, or ending. */
    method Proceed(tid: Tid, ghost e: Event)
      requires e == SyncFails(tid) || e == StartExtras(tid) || e == Finish(tid)
      requires Allowed(View(), e)
      modifies `calls
      ensures View() == After(old(View()), e)
    {
      calls := After(View(), e).calls;
    }

    method Unlock(tid: Tid)
      requires Allowed(View(), Event.Unlock(tid))
      modifies `locked, `calls
      ensures View() == After(old(View()), Event.Unlock(tid))
    {
      locked := false;
      calls := calls - {tid};
    }

    // A whole run, when nobody else steps in between.

    method PrepareStagingDir(tid: Tid, w: World) returns (ok: bool)
      requires At(View(), tid, Preparing)
      modifies `staging, `calls
      ensures ok <==> Clears(w.removals) && w.mkdir
      ensures View() == After(old(View()), Clear(tid, if Clears(w.removals) then {} else w.kept, ok))
    {
      var cleared := false;
      for attempt := 0 to 3
        invariant !cleared && View() == old(View())
        invariant attempt > 0 ==> w.removals(0).NotEmpty?
        invariant attempt > 1 ==> w.removals(1).NotEmpty?
        invariant attempt > 2 ==> w.removals(2).NotEmpty?
      {
        match w.removals(attempt)
        case Broken =>
          ClearStaging(tid, w.kept, false);
          return false;
        case NotEmpty =>
        case Removed =>
          cleared := true;
          break;
      }
      if !cleared {
        ClearStaging(tid, w.kept, false);
        return false;
      }
      ClearStaging(tid, {}, w.mkdir);
      return w.mkdir;
    }

    /** The sections, file by file in any order. */
    method RenderSections(tid: Tid, render: Tree)
      requires At(View(), tid, Rendering)
      modifies `staging
      ensures staging == old(staging) + Files(render, tid)
    {
      ghost var start, files := staging, Files(render, tid);
      var rest := render.Keys;
      while rest != {}
        invariant rest <= render.Keys && PartlyRendered(start, files, rest, staging)
        decreases |rest|
      {
        var p :| p in rest;
        MoreFiles(start, files, rest, staging, p);
        WriteFile(tid, p, render[p]);
        rest := rest - {p};
      }
      AllRendered(start, files, staging);
    }

    /** One file of the sync's first loop. */
    method CopyNext(tid: Tid, w: World, files: Tree, ghost start: Tree, ghost rest: set<Path>, p: Path)
      returns (failed: bool)
      requires Sourced(files, staging) && rest <= files.Keys && p in rest
      requires CopiesFiles(View(), tid) && calls[tid].todo == rest
      requires PartlyCopied(w.writes, files, start, rest, corpus)
      modifies `corpus, `calls
      ensures failed <==> w.writes(p).Some?
      ensures !failed ==> PartlyCopied(w.writes, files, start, rest - {p}, corpus)
      ensures failed ==> !Clean(w.writes, files) && AllFromCopy(w.writes, files, start, corpus)
      ensures calls == old(calls)[tid := if failed then Leaving else Copying(rest - {p}, old(calls)[tid].base)]
    {
      if w.writes(p).Some? {
        FailedCopy(w.writes, files, start, rest, corpus, p);
        FailFile(tid, p, w.writes(p).value);
        return true;
      }
      OneMoreCopied(w.writes, files, start, rest, corpus, p);
      CopyFile(tid, p);
      return false;
    }

    /** The substance files, in any order; the first that fails ends the sync. */
    method CopySubstance(tid: Tid, w: World, files: Tree) returns (failed: bool)
      requires Sourced(files, staging) && CopiesFiles(View(), tid) && calls[tid].todo == files.Keys
      modifies `corpus, `calls
      ensures failed <==> !Clean(w.writes, files)
      ensures AllFromCopy(w.writes, files, old(corpus), corpus)
      ensures !failed ==> corpus == old(corpus) + files
      ensures calls == old(calls)[tid := if failed then Leaving else Copying({}, old(calls)[tid].base)]
    {
      ghost var base, start := calls[tid].base, corpus;
      var rest := files.Keys;
      while rest != {}
        invariant rest <= files.Keys
        invariant PartlyCopied(w.writes, files, start, rest, corpus)
        invariant calls == old(calls)[tid := Copying(rest, base)]
        decreases |rest|
      {
        var p :| p in rest;
        failed := CopyNext(tid, w, files, start, rest, p);
        if failed {
          return;
        }
        rest := rest - {p};
      }
      AllCopied(w.writes, files, start, corpus);
      return false;
    }

    /** One of the extras. */
    method NextExtra(tid: Tid, w: World, extras: Tree, ghost start: Tree, i: nat)
      requires Sourced(extras, staging) && HasExtras(extras, staging) && i < |EXTRAS|
      requires CopiesExtras(View(), tid) && calls[tid].extras == Left(extras, i)
      requires ExtrasCopied(w.extraWrites, extras, start, EXTRAS[..i], corpus)
      modifies `corpus, `calls
      ensures CopiesExtras(View(), tid) && calls[tid].extras == Left(extras, i + 1)
      ensures calls == old(calls)[tid := calls[tid]]
      ensures ExtrasCopied(w.extraWrites, extras, start, EXTRAS[..i + 1], corpus)
    {
      var p := EXTRAS[i];
      ExtraStep(extras, i);
      if p !in staging {
        ExtrasSkippedStep(w.extraWrites, extras, start, i, corpus);
        return;
      }
      ExtrasCopiedStep(w.extraWrites, extras, start, i, corpus);
      if w.extraWrites(p).Some? {
        FailExtraFile(tid, p, w.extraWrites(p).value);
      } else {
        CopyExtraFile(tid, p);
      }
    }

    /** The extras that were rendered; failures are only logged. */
    method CopyExtras(tid: Tid, w: World, extras: Tree)
      requires Sourced(extras, staging) && HasExtras(extras, staging)
      requires CopiesExtras(View(), tid) && calls[tid].extras == extras.Keys
      modifies `corpus, `calls
      ensures AllFromCopy(w.extraWrites, extras, old(corpus), corpus)
      ensures Clean(w.extraWrites, extras) ==> corpus == old(corpus) + extras
      ensures CopiesExtras(View(), tid) && calls[tid].extras == {} && calls == old(calls)[tid := calls[tid]]
    {
      ghost var start := corpus;
      NoneLeft(extras, staging);
      for i := 0 to |EXTRAS|
        invariant CopiesExtras(View(), tid) && calls == old(calls)[tid := calls[tid]]
        invariant calls[tid].extras == Left(extras, i)
        invariant ExtrasCopied(w.extraWrites, extras, start, EXTRAS[..i], corpus)
      {
        NextExtra(tid, w, extras, start, i);
      }
      AllExtrasCopied(w.extraWrites, extras, staging, start, corpus);
    }

    /** sync, on a run that has decided for it. */
    method Sync(tid: Tid, w: World, render: Tree) returns (failed: bool)
      requires render == Contents(staging) && CopiesFiles(View(), tid) && calls[tid].todo == Substance(render).Keys
      modifies `corpus, `calls
      ensures failed <==> !w.rooted || !Clean(w.writes, Substance(render))
      ensures failed ==> AllFromCopy(w.writes, Substance(render), old(corpus), corpus)
      ensures !failed ==> AllFromCopy(w.extraWrites, ExtrasOf(render), old(corpus) + Substance(render), corpus)
      ensures !failed && Clean(w.extraWrites, ExtrasOf(render)) ==> corpus == Synced(render, old(corpus))
      ensures calls == old(calls)[tid := Leaving]
    {
      if !w.rooted {
        Proceed(tid, SyncFails(tid));
        return true;
      }
      PartsOfRender(staging, render);
      failed := CopySubstance(tid, w, Substance(render));
      if failed {
        return;
      }
      SyncedIsBoth(render, old(corpus));
      SyncExtras(tid, w, render);
    }

    /** The rest of it, behind the substance files. */
    method SyncExtras(tid: Tid, w: World, render: Tree)
      requires render == Contents(staging) && CopiesFiles(View(), tid) && calls[tid].todo == {}
      modifies `corpus, `calls
      ensures AllFromCopy(w.extraWrites, ExtrasOf(render), old(corpus), corpus)
      ensures Clean(w.extraWrites, ExtrasOf(render)) ==> corpus == old(corpus) + ExtrasOf(render)
      ensures calls == old(calls)[tid := Leaving]
    {
      PartsOfRender(staging, render);
      Proceed(tid, StartExtras(tid));
      CopyExtras(tid, w, ExtrasOf(render));
      Proceed(tid, Event.Finish(tid));
    }

    /** From a rendered staging tree to the end. */
    method ValidateAndFinalize(tid: Tid, digest: Content -> nat, w: World, dryRun: bool) returns (r: Result)
      requires NoCollision(digest) && At(View(), tid, Rendering) && Contents(staging) == w.render
      modifies `corpus, `calls
      ensures Clears(w.removals) && w.mkdir ==> r == Expected(w, dryRun, old(corpus))
      ensures Outcome(r, w, old(corpus), corpus) && !r.StagingFailed?
      ensures calls == old(calls)[tid := Leaving]
    {
      var stop := DecideSync(tid, digest, w, dryRun);
      if stop.Some? {
        return stop.value;
      }
      var failed := Sync(tid, w, w.render);
      r := if failed then SyncFailed else Committed;
    }

    /** The part between TryLock and the deferred Unlock. */
    method PublishLocked(tid: Tid, digest: Content -> nat, w: World, dryRun: bool) returns (r: Result)
      requires NoCollision(digest) && At(View(), tid, Preparing)
      modifies `staging, `corpus, `calls
      ensures r == Expected(w, dryRun, old(corpus))
      ensures !r.StagingFailed? ==> staging == Files(w.render, tid)
      ensures Outcome(r, w, old(corpus), corpus)
      ensures calls == old(calls)[tid := Leaving]
    {
      var ok := PrepareStagingDir(tid, w);
      if !ok {
        return StagingFailed;
      }
      RenderSections(tid, w.render);
      assert staging == Files(w.render, tid);
      FilesContents(w.render, tid);
      r := ValidateAndFinalize(tid, digest, w, dryRun);
    }

    /** `dryRun` also stands for the "export" mode. */
    method Publish(tid: Tid, digest: Content -> nat, w: World, dryRun: bool) returns (r: Result)
      requires NoCollision(digest) && tid !in calls
      modifies this
      ensures locked == old(locked) && calls == old(calls)
      ensures old(locked) ==> r.InProgress? && staging == old(staging) && corpus == old(corpus)
      ensures !old(locked) ==> r == Expected(w, dryRun, old(corpus))
      ensures !old(locked) ==>
                && (r.StagingFailed? <==> !Prepared(w))
                && (r.ValidationFailed? <==> Prepared(w) && !w.valid)
                && (r.DryRun? <==> Prepared(w) && w.valid && dryRun)
                && (r.NoChanges? <==> Prepared(w) && w.valid && !dryRun && !Finds(w, old(corpus)))
                && (r.SyncFailed? <==> Prepared(w) && w.valid && !dryRun && Finds(w, old(corpus)) && !Copies(w))
                && (r.Committed? <==> Prepared(w) && w.valid && !dryRun && Finds(w, old(corpus)) && Copies(w))
      ensures Outcome(r, w, old(corpus), corpus)
    {
      ExpectedIff(w, dryRun, corpus);
      Enter(tid);
      var ok := TryLock(tid);
      assert old(calls)[tid := Calling] - {tid} == old(calls) == old(calls)[tid := Leaving] - {tid};
      if !ok {
        return InProgress;
      }
      r := PublishLocked(tid, digest, w, dryRun);
      Unlock(tid);
    }
  }

  /** The extras from the i-th on that were rendered. */
  function Left(extras: Tree, i: nat): set<Path>
    requires i <= |EXTRAS|
  {
    set p | p in extras && p in EXTRAS[i..]
  }

  lemma NoneLeft(extras: Tree, staging: map<Path, File>)
    requires HasExtras(extras, staging)
    ensures Left(extras, 0) == extras.Keys && Left(extras, |EXTRAS|) == {}
  {
    assert EXTRAS[0..] == EXTRAS && EXTRAS[|EXTRAS|..] == [];
  }

  /** `files` are files of the staging tree. */
  ghost predicate Sourced(files: Tree, staging: map<Path, File>) {
    forall p :: p in files ==> p in staging && staging[p].content == files[p]
  }

  /** `extras` are exactly the extras that were rendered. */
  ghost predicate HasExtras(extras: Tree, staging: map<Path, File>) {
    forall p :: p in extras <==> p in staging && p in EXTRAS
  }

  lemma PartsOfRender(staging: map<Path, File>, render: Tree)
    requires render == Contents(staging)
    ensures Sourced(Substance(render), staging)
    ensures Sourced(ExtrasOf(render), staging) && HasExtras(ExtrasOf(render), staging)
  {
  }

  /** All of `files` but those in `rest` have been written on top of `start`. */
  ghost predicate PartlyRendered(start: map<Path, File>, files: map<Path, File>, rest: set<Path>, r: map<Path, File>) {
    && (forall p :: p in r <==> p in start || (p in files && p !in rest))
    && (forall p :: p in r ==> r[p] == if p in files && p !in rest then files[p] else start[p])
  }

  lemma MoreFiles(start: map<Path, File>, files: map<Path, File>, rest: set<Path>, r: map<Path, File>, p: Path)
    requires PartlyRendered(start, files, rest, r) && p in rest && rest <= files.Keys
    ensures PartlyRendered(start, files, rest - {p}, r[p := files[p]])
  {
  }

  lemma AllRendered(start: map<Path, File>, files: map<Path, File>, r: map<Path, File>)
    requires PartlyRendered(start, files, {}, r)
    ensures r == start + files
  {
  }

  /** Those of `extras` that are in `done` have been attempted. */
  ghost predicate ExtrasCopied(trouble: Trouble, extras: Tree, corpus: Tree, done: seq<Path>, r: Tree) {
    && AllFromCopy(trouble, extras, corpus, r)
    && (forall p :: p in r ==> p in corpus || p in extras)
    && (forall p :: p in extras && p in done && trouble(p).None? ==> p in r && r[p] == extras[p])
    && (forall p :: p in corpus && !(p in extras && p in done) ==> r[p] == corpus[p])
  }

  lemma ExtraStep(extras: Tree, i: nat)
    requires i < |EXTRAS|
    ensures Left(extras, i + 1) == Left(extras, i) - {EXTRAS[i]}
    ensures EXTRAS[i] in extras ==> EXTRAS[i] in Left(extras, i)
  {
    assert forall p :: p in EXTRAS[i..] <==> p == EXTRAS[i] || p in EXTRAS[i + 1..];
    assert EXTRAS[i] !in EXTRAS[i + 1..];
  }

  lemma ExtrasCopiedStep(trouble: Trouble, extras: Tree, corpus: Tree, i: nat, r: Tree)
    requires i < |EXTRAS| && EXTRAS[i] in extras
    requires ExtrasCopied(trouble, extras, corpus, EXTRAS[..i], r)
    ensures var p := EXTRAS[i];
      var after := if trouble(p).None? then r[p := extras[p]] else Failed(r, p, trouble(p).value);
      ExtrasCopied(trouble, extras, corpus, EXTRAS[..i + 1], after)
  {
    assert EXTRAS[..i + 1] == EXTRAS[..i] + [EXTRAS[i]];
  }

  lemma ExtrasSkippedStep(trouble: Trouble, extras: Tree, corpus: Tree, i: nat, r: Tree)
    requires i < |EXTRAS| && EXTRAS[i] !in extras
    requires ExtrasCopied(trouble, extras, corpus, EXTRAS[..i], r)
    ensures ExtrasCopied(trouble, extras, corpus, EXTRAS[..i + 1], r)
  {
    assert EXTRAS[..i + 1] == EXTRAS[..i] + [EXTRAS[i]];
  }

  lemma AllExtrasCopied(trouble: Trouble, extras: Tree, staging: map<Path, File>, corpus: Tree, r: Tree)
    requires HasExtras(extras, staging) && ExtrasCopied(trouble, extras, corpus, EXTRAS[..|EXTRAS|], r)
    ensures AllFromCopy(trouble, extras, corpus, r)
    ensures Clean(trouble, extras) ==> r == corpus + extras
  {
    assert EXTRAS[..|EXTRAS|] == EXTRAS;
  }
}
