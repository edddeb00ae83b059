/** Whole runs: any finite sequence of reads, insertions, replacements, commits and checkpoints, each
    under its own faults; and exactly which runs keep a checkpoint isolated and the cache invisible. */
module Runs {
  import opened Types
  import opened Layers
  import opened Transitions
  import opened Reads
  import opened Commits
  import opened Overlay
  import opened Programs

  datatype Event = Event(op: Op, faults: Faults)

  /** The database, the uncached model beside it, and the view at the last checkpoint. */
  datatype Trace = Trace(db: State, model: World, checkpoint: World)

  ghost predicate AllWellFormed(run: seq<Event>) {
    forall e <- run :: WellFormed(e.op)
  }

  ghost predicate AllOneCode(run: seq<Event>, hash: Hasher) {
    forall e <- run :: OneCodePerHash(e.op, hash)
  }

  /** One event: the model and the checkpoint move only if the operation succeeds. */
  ghost function Advance(t: Trace, w: World, hash: Hasher, e: Event): Trace
    requires WellFormed(e.op)
  {
    var (s', r) := Step(t.db, w, hash, e.faults, e.op);
    if !r.Ok? then t.(db := s')
    else Trace(s', Effect(t.model, e.op, hash), if e.op.Sync? then View(t.db.cur, w) else t.checkpoint)
  }

  /** A run from a new database. Its checkpoint is the bare backend until the first `Sync`. */
  ghost function Execute(w: World, hash: Hasher, run: seq<Event>): Trace
    requires AllWellFormed(run)
  {
    if run == [] then Trace(NEW_STATE, View(NEW_STATE.cur, w), w)
    else Advance(Execute(w, hash, run[..|run| - 1]), w, hash, run[|run| - 1])
  }

  /** A step forgets no account. */
  lemma StepKeepsAccounts(s: State, w: World, hash: Hasher, f: Faults, op: Op)
    requires WellFormed(op)
    ensures s.cur.accounts.Keys <= Step(s, w, hash, f, op).0.cur.accounts.Keys
    ensures AbsentIsZeroOutside(s.cur, w) ==> AbsentIsZeroOutside(Step(s, w, hash, f, op).0.cur, w)
  {
    match op
    case Ask(q) => ReadOnlyWarms(s, w, f, q);
    case PutInfo(_, _) =>
    case PutSlot(a, _, _) => ReadOnlyWarms(s, w, f, Basic(a));
    case PutStorage(a, _) => ReadOnlyWarms(s, w, f, Basic(a));
    case CommitBatch(changes, order) => CommitMeaning(s.cur, changes, order, hash);
    case Sync =>
  }

  // ---- the checkpoint, step by step ----

  /** The checkpoint has backend values wherever a plain change makes a non-existing account readable. */
  ghost predicate RevivalMatchesCheckpoint(s: State, w: World, changes: Changes, a: Address, i: U256) {
    a in changes && Plain(changes[a]) && a in s.orig.accounts && a in s.cur.accounts
    && s.cur.accounts[a].status.NotExisting?
    && i !in s.cur.accounts[a].storage && i !in changes[a].storage
    ==> SlotAt(s.orig, w, a, i) == w.slot(a, i)
  }

  /** Taking a checkpoint makes it safe, in any state. */
  lemma SyncMakesSafe(s: State, w: World)
    ensures CheckpointSafe(SyncOriginals(s), w) && View(Clone(SyncOriginals(s)).cur, w) == View(s.cur, w)
  {
  }

  lemma CommitKeepsCheckpointExactly(s: State, w: World, hash: Hasher, changes: Changes, order: seq<Address>)
    requires CheckpointSafe(s, w) && Enumerates(order, changes.Keys)
    ensures CheckpointSafe(s.(cur := CommitInOrder(s.cur, changes, order, hash)), w) <==>
            forall a: Address, i: U256 :: RevivalMatchesCheckpoint(s, w, changes, a, i)
  {
    var s' := s.(cur := CommitInOrder(s.cur, changes, order, hash));
    CommitMeaning(s.cur, changes, order, hash);
    if CheckpointSafe(s', w) {
      forall a: Address, i: U256 ensures RevivalMatchesCheckpoint(s, w, changes, a, i) {
      }
    } else {
      var a: Address, i: U256 :| a in s.orig.accounts && s'.cur.accounts[a].ReadsThrough()
        && i !in s'.cur.accounts[a].storage && SlotAt(s.orig, w, a, i) != w.slot(a, i);
      assert !RevivalMatchesCheckpoint(s, w, changes, a, i);
    }
  }

  /** Storing an account keeps the checkpoint safe if it opens no slot to reading through. */
  lemma StoreKeepsSafe(s: State, w: World, a: Address, acc: DbAccount, contracts: map<B256, Bytecode>)
    requires CheckpointSafe(s, w)
    requires a in s.orig.accounts && acc.ReadsThrough()
             ==> s.cur.accounts[a].ReadsThrough() && s.cur.accounts[a].storage.Keys <= acc.storage.Keys
    requires s.cur.contracts.Keys <= contracts.Keys
    ensures CheckpointSafe(s.(cur := s.cur.(accounts := s.cur.accounts[a := acc], contracts := contracts)), w)
  {
  }

  lemma PutKeepsCheckpoint(s: State, w: World, hash: Hasher, f: Faults, op: Op)
    requires CheckpointSafe(s, w) && AbsentIsZeroOutside(s.cur, w)
    requires op.PutInfo? || op.PutSlot? || op.PutStorage?
    ensures var s' := Step(s, w, hash, f, op).0;
            CheckpointSafe(s', w) && Same(View(s'.orig, w), View(s.orig, w))
  {
    match op
    case PutInfo(a, info) =>
      StoreKeepsSafe(s, w, a, AccountOrDefault(s.cur.accounts, a).(info := Normalised(info, hash)),
                     InsertContract(s.cur.contracts, info, hash));
    case PutSlot(a, i, v) =>
      LoadKeepsSafe(s, w, f, a);
      var (s1, r) := LoadAccount(s, w, f, a);
      if r.Ok? {
        StoreKeepsSafe(s1, w, a, AddSlot(s1.cur.accounts[a], i, v), s1.cur.contracts);
      }
    case PutStorage(a, storage) =>
      LoadKeepsSafe(s, w, f, a);
      var (s1, r) := LoadAccount(s, w, f, a);
      if r.Ok? {
        StoreKeepsSafe(s1, w, a, s1.cur.accounts[a].(status := StorageCleared, storage := storage), s1.cur.contracts);
      }
  }

  lemma LoadKeepsSafe(s: State, w: World, f: Faults, a: Address)
    requires CheckpointSafe(s, w) && AbsentIsZeroOutside(s.cur, w)
    ensures var (s', r) := LoadAccount(s, w, f, a);
            && CheckpointSafe(s', w)
            && Same(View(s'.orig, w), View(s.orig, w))
            && (!r.Ok? ==> s' == s)
  {
    ReadKeepsCheckpoint(s, w, f, Basic(a));
    assert Read(s, w, f, Basic(a)).0 == LoadAccount(s, w, f, a).0;
  }

  /** The guard of a step: what it commits matches the checkpoint. */
  ghost predicate SafeStep(s: State, w: World, op: Op) {
    op.CommitBatch? ==> forall a: Address, i: U256 :: RevivalMatchesCheckpoint(s, w, op.changes, a, i)
  }

  /** Every operation but a checkpoint leaves the checkpoint's view alone, and keeps it safe exactly if
      no plain change revives an account whose checkpoint differs from the backend. */
  lemma StepKeepsCheckpointExactly(s: State, w: World, hash: Hasher, f: Faults, op: Op)
    requires CheckpointSafe(s, w) && AbsentIsZeroOutside(s.cur, w) && WellFormed(op) && !op.Sync?
    ensures var s' := Step(s, w, hash, f, op).0;
            && Same(View(s'.orig, w), View(s.orig, w))
            && (CheckpointSafe(s', w) <==> SafeStep(s, w, op))
  {
    match op
    case Ask(q) => ReadKeepsCheckpoint(s, w, f, q);
    case PutInfo(_, _) => PutKeepsCheckpoint(s, w, hash, f, op);
    case PutSlot(_, _, _) => PutKeepsCheckpoint(s, w, hash, f, op);
    case PutStorage(_, _) => PutKeepsCheckpoint(s, w, hash, f, op);
    case CommitBatch(changes, order) => CommitKeepsCheckpointExactly(s, w, hash, changes, order);
  }

  // ---- the checkpoint, over runs ----

  ghost predicate Isolated(t: Trace, w: World) {
    && AbsentIsZeroOutside(t.db.orig, w)
    && CheckpointSafe(t.db, w)
    && Same(View(t.db.orig, w), t.checkpoint)
  }

  lemma StepKeepsOriginals(s: State, w: World, hash: Hasher, f: Faults, op: Op)
    requires OriginalsCached(s) && AbsentIsZeroOutside(s.orig, w) && WellFormed(op)
    ensures var s' := Step(s, w, hash, f, op).0;
            OriginalsCached(s') && AbsentIsZeroOutside(s'.orig, w)
  {
    match op
    case Ask(q) => ReadCases(s, w, f, q);
    case PutInfo(_, _) =>
    case PutSlot(a, _, _) => ReadCases(s, w, f, Basic(a));
    case PutStorage(a, _) => ReadCases(s, w, f, Basic(a));
    case CommitBatch(changes, order) => CommitMeaning(s.cur, changes, order, hash);
    case Sync =>
  }

  lemma AdvanceKeepsIsolatedExactly(t: Trace, w: World, hash: Hasher, e: Event)
    requires Isolated(t, w) && WellFormed(e.op)
    ensures Isolated(Advance(t, w, hash, e), w) <==> SafeStep(t.db, w, e.op)
    ensures Same(View(Advance(t, w, hash, e).db.orig, w), Advance(t, w, hash, e).checkpoint)
  {
    StepKeepsOriginals(t.db, w, hash, e.faults, e.op);
    if e.op.Sync? {
      SyncMakesSafe(t.db, w);
    } else {
      StepKeepsCheckpointExactly(t.db, w, hash, e.faults, e.op);
    }
  }

  /** Every commit of the run matches the checkpoint when its turn comes. */
  ghost predicate SafeRun(w: World, hash: Hasher, run: seq<Event>)
    requires AllWellFormed(run)
  {
    run == [] ||
    (var before := run[..|run| - 1];
     SafeRun(w, hash, before) && SafeStep(Execute(w, hash, before).db, w, run[|run| - 1].op))
  }

  lemma {:induction false} SafeRunIsIsolated(w: World, hash: Hasher, run: seq<Event>)
    requires AbsentIsZero(w) && AllWellFormed(run) && SafeRun(w, hash, run)
    ensures Isolated(Execute(w, hash, run), w)
    decreases |run|
  {
    if run != [] {
      var before := run[..|run| - 1];
      SafeRunIsIsolated(w, hash, before);
      AdvanceKeepsIsolatedExactly(Execute(w, hash, before), w, hash, run[|run| - 1]);
    }
  }

  /** A clone shows the checkpoint, now and after any further read. */
  ghost predicate ShowsCheckpoint(t: Trace, w: World) {
    && Same(View(Clone(t.db).cur, w), t.checkpoint)
    && forall q: Query :: Same(View(Clone(Read(t.db, w, NO_FAULTS, q).0).cur, w), t.checkpoint)
  }

  lemma IsolatedIsExact(t: Trace, w: World)
    requires AbsentIsZeroOutside(t.db.orig, w) && OriginalsCached(t.db)
    ensures Isolated(t, w) <==> ShowsCheckpoint(t, w)
  {
    CheckpointSafeIsExact(t.db, w);
    if Same(View(t.db.orig, w), t.checkpoint) {
      forall q: Query
        ensures Same(View(Read(t.db, w, NO_FAULTS, q).0.orig, w), View(t.db.orig, w))
                <==> Same(View(Clone(Read(t.db, w, NO_FAULTS, q).0).cur, w), t.checkpoint)
      {
      }
    }
  }

  /** That is so at every moment of the run. */
  ghost predicate AlwaysShowsCheckpoint(w: World, hash: Hasher, run: seq<Event>)
    requires AllWellFormed(run)
  {
    && ShowsCheckpoint(Execute(w, hash, run), w)
    && (run != [] ==> AlwaysShowsCheckpoint(w, hash, run[..|run| - 1]))
  }

  /** Checkpoint isolation is exact over runs: at every moment of a run, and after any further read there, a
      clone shows the last checkpoint, if and only if every commit of the run matches the checkpoint. */
  lemma {:induction false} SafeRunIsExact(w: World, hash: Hasher, run: seq<Event>)
    requires AbsentIsZero(w) && AllWellFormed(run)
    ensures SafeRun(w, hash, run) <==> AlwaysShowsCheckpoint(w, hash, run)
    decreases |run|
  {
    if run == [] {
      IsolatedIsExact(Execute(w, hash, run), w);
    } else {
      SafeRunIsExact(w, hash, run[..|run| - 1]);
      if SafeRun(w, hash, run[..|run| - 1]) {
        SafeStepIsExact(w, hash, run);
      }
    }
  }

  lemma SafeStepIsExact(w: World, hash: Hasher, run: seq<Event>)
    requires run != [] && AbsentIsZero(w) && AllWellFormed(run) && SafeRun(w, hash, run[..|run| - 1])
    ensures SafeRun(w, hash, run) <==> ShowsCheckpoint(Execute(w, hash, run), w)
  {
    var t, e := Execute(w, hash, run[..|run| - 1]), run[|run| - 1];
    SafeRunIsIsolated(w, hash, run[..|run| - 1]);
    AdvanceKeepsIsolatedExactly(t, w, hash, e);
    StepKeepsOriginals(t.db, w, hash, e.faults, e.op);
    IsolatedIsExact(Execute(w, hash, run), w);
  }

  /** After a safe run, a clone over a backend `v` shows the view at the last checkpoint exactly if `v` answers as the run's backend what the checkpoint does not
      answer by itself; and then a program on the clone, under any faults, computes what it would have
      computed on that view. */
  lemma CloneShowsTheCheckpoint<R>(w: World, v: World, hash: Hasher, run: seq<Event>,
                                   p: Program<R>, net: Network, gas: nat)
    requires AbsentIsZero(w) && AllWellFormed(run) && SafeRun(w, hash, run)
    ensures var t := Execute(w, hash, run);
            var r := Run(p, Clone(t.db), v, net, [], gas).1;
            && (Same(View(Clone(t.db).cur, v), t.checkpoint) <==> AgreeOutside(t.db.orig, v, w))
            && (AgreeOutside(t.db.orig, v, w) && r.Ok? ==> r.value == RunRef(p, t.checkpoint, [], gas))
  {
    SafeRunIsIsolated(w, hash, run);
    var t := Execute(w, hash, run);
    AgreeingBackendsAreSame(t.db.orig, v, w);
    if AgreeOutside(t.db.orig, v, w) {
      AgreementKeepsAbsentZero(t.db.orig, v, w);
      RunAnswersView(p, Clone(t.db), v, net, [], gas);
      SameWorldsSameRun(p, View(t.db.orig, v), t.checkpoint, [], gas);
    }
  }

  lemma AgreementKeepsAbsentZero(l: Layer, v: World, w: World)
    requires AgreeOutside(l, v, w) && AbsentIsZeroOutside(l, w)
    ensures AbsentIsZeroOutside(l, v)
  {
    forall a: Address, i: U256 | a !in l.accounts && v.info(a).None? ensures v.slot(a, i) == 0 {
      assert v.Get(Basic(a)) == w.Get(Basic(a)) && v.Get(Slot(a, i)) == w.Get(Slot(a, i));
    }
  }

  // ---- the cache against the uncached model, over runs ----

  ghost predicate Refined(t: Trace, w: World) {
    && AbsentIsZeroOutside(t.db.cur, w)
    && Same(View(t.db.cur, w), t.model)
    && Tidy(t.db.cur) && Tidy(t.db.orig)
  }

  lemma StepKeepsTidy(s: State, w: World, hash: Hasher, f: Faults, op: Op)
    requires Tidy(s.cur) && WellFormed(op)
    requires op.PutInfo? && op.address in s.cur.accounts ==> !s.cur.accounts[op.address].status.NotExisting?
    ensures Tidy(Step(s, w, hash, f, op).0.cur)
  {
    if op.CommitBatch? {
      CommitMeaning(s.cur, op.changes, op.order, hash);
    }
  }

  lemma StepKeepsOriginalsTidy(s: State, w: World, hash: Hasher, f: Faults, op: Op)
    requires Tidy(s.cur) && Tidy(s.orig) && WellFormed(op)
    ensures Tidy(Step(s, w, hash, f, op).0.orig)
  {
    match op
    case Ask(q) => ReadCases(s, w, f, q);
    case PutSlot(a, _, _) => ReadCases(s, w, f, Basic(a));
    case PutStorage(a, _) => ReadCases(s, w, f, Basic(a));
    case _ =>
  }

  lemma SameEffect(v: World, o: World, op: Op, hash: Hasher)
    requires Same(v, o)
    ensures Same(Effect(v, op, hash), Effect(o, op, hash))
  {
    assert forall a: Address :: InfoAfter(v, op, hash, a) == InfoAfter(o, op, hash, a);
    assert forall a: Address, i: U256 :: SlotAfter(v, op, a, i) == SlotAfter(o, op, a, i);
    assert forall h: B256 :: CodeAfter(v, op, hash, h) == CodeAfter(o, op, hash, h);
  }

  /** A step keeps the cache in step with the model exactly if what it writes keeps its meaning. */
  lemma AdvanceKeepsRefinedExactly(t: Trace, w: World, hash: Hasher, e: Event)
    requires Refined(t, w) && WellFormed(e.op) && OneCodePerHash(e.op, hash)
    ensures var t' := Advance(t, w, hash, e);
            && (Same(View(t'.db.cur, w), t'.model) <==> WritesFaithfully(t.db.cur, w, e.op, hash))
            && (Refined(t', w) <==> WritesFaithfully(t.db.cur, w, e.op, hash))
  {
    StepKeepsAccounts(t.db, w, hash, e.faults, e.op);
    StepFailureChangesNothing(t.db, w, hash, e.faults, e.op);
    StepKeepsOriginalsTidy(t.db, w, hash, e.faults, e.op);
    if WritesFaithfully(t.db.cur, w, e.op, hash) {
      StepKeepsTidy(t.db, w, hash, e.faults, e.op);
    }
    if Step(t.db, w, hash, e.faults, e.op).1.Ok? {
      StepIsExact(t.db, w, hash, e.faults, e.op);
      SameEffect(View(t.db.cur, w), t.model, e.op, hash);
    }
  }

  /** Every write of the run keeps its meaning when its turn comes. */
  ghost predicate FaithfulRun(w: World, hash: Hasher, run: seq<Event>)
    requires AllWellFormed(run)
  {
    run == [] ||
    (var before := run[..|run| - 1];
     FaithfulRun(w, hash, before) && WritesFaithfully(Execute(w, hash, before).db.cur, w, run[|run| - 1].op, hash))
  }

  lemma {:induction false} FaithfulRunIsRefined(w: World, hash: Hasher, run: seq<Event>)
    requires AbsentIsZero(w) && AllWellFormed(run) && AllOneCode(run, hash) && FaithfulRun(w, hash, run)
    ensures Refined(Execute(w, hash, run), w)
    decreases |run|
  {
    if run != [] {
      var before := run[..|run| - 1];
      FaithfulRunIsRefined(w, hash, before);
      AdvanceKeepsRefinedExactly(Execute(w, hash, before), w, hash, run[|run| - 1]);
    }
  }

  /** The uncached database after a run, with no cache in sight. */
  ghost function Model(o: World, hash: Hasher, run: seq<Event>): World {
    if run == [] then o else Effect(Model(o, hash, run[..|run| - 1]), run[|run| - 1].op, hash)
  }

  /** The events of a run that succeed on the cache. */
  ghost function Succeeded(w: World, hash: Hasher, run: seq<Event>): seq<Event>
    requires AllWellFormed(run)
  {
    if run == [] then []
    else
      var before, e := run[..|run| - 1], run[|run| - 1];
      Succeeded(w, hash, before)
      + if Step(Execute(w, hash, before).db, w, hash, e.faults, e.op).1.Ok? then [e] else []
  }

  /** The model of a run is the uncached database after the events that succeeded. */
  lemma {:induction false} ModelIsUncached(w: World, hash: Hasher, run: seq<Event>)
    requires AllWellFormed(run)
    ensures Execute(w, hash, run).model == Model(View(NEW_STATE.cur, w), hash, Succeeded(w, hash, run))
    decreases |run|
  {
    if run != [] {
      var before, e := run[..|run| - 1], run[|run| - 1];
      ModelIsUncached(w, hash, before);
      var done := Succeeded(w, hash, before);
      assert (done + [e])[..|done|] == done;
      assert done + [] == done;
    }
  }

  /** After the run no reader can tell the cache from the uncached database after the same operations. */
  ghost predicate Invisible(w: World, hash: Hasher, run: seq<Event>)
    requires AllWellFormed(run)
  {
    Same(View(Execute(w, hash, run).db.cur, w), Model(View(NEW_STATE.cur, w), hash, Succeeded(w, hash, run)))
  }

  /** That is so at every moment of the run. */
  ghost predicate AlwaysInvisible(w: World, hash: Hasher, run: seq<Event>)
    requires AllWellFormed(run)
  {
    Invisible(w, hash, run) && (run != [] ==> AlwaysInvisible(w, hash, run[..|run| - 1]))
  }

  /** Refinement is exact over runs: the cache is invisible at every moment of a run if and only if every write
      of the run keeps its meaning. */
  lemma {:induction false} FaithfulRunIsExact(w: World, hash: Hasher, run: seq<Event>)
    requires AbsentIsZero(w) && AllWellFormed(run) && AllOneCode(run, hash)
    ensures FaithfulRun(w, hash, run) <==> AlwaysInvisible(w, hash, run)
    decreases |run|
  {
    if run != [] {
      FaithfulRunIsExact(w, hash, run[..|run| - 1]);
      if FaithfulRun(w, hash, run[..|run| - 1]) {
        FaithfulStepIsExact(w, hash, run);
      }
    }
  }

  lemma FaithfulStepIsExact(w: World, hash: Hasher, run: seq<Event>)
    requires run != [] && AbsentIsZero(w) && AllWellFormed(run) && AllOneCode(run, hash)
    requires FaithfulRun(w, hash, run[..|run| - 1])
    ensures FaithfulRun(w, hash, run) <==> Invisible(w, hash, run)
  {
    FaithfulRunIsRefined(w, hash, run[..|run| - 1]);
    AdvanceKeepsRefinedExactly(Execute(w, hash, run[..|run| - 1]), w, hash, run[|run| - 1]);
    ModelIsUncached(w, hash, run);
  }

  /** After a faithful run a program on the cache computes what it computes on the uncached database after the
      same operations: if it finishes, under any faults; and it does finish without faults if every slot is
      covered. */
  lemma {:induction false} CacheIsInvisible<R>(w: World, hash: Hasher, run: seq<Event>,
                                               p: Program<R>, net: Network, gas: nat)
    requires AbsentIsZero(w) && AllWellFormed(run) && AllOneCode(run, hash) && FaithfulRun(w, hash, run)
    ensures var s := Execute(w, hash, run).db;
            var o := Model(View(NEW_STATE.cur, w), hash, Succeeded(w, hash, run));
            var r := Run(p, s, w, net, [], gas).1;
            && Same(View(s.cur, w), o)
            && (r.Ok? ==> r.value == RunRef(p, o, [], gas))
            && (Covered(s) ==> Run(p, s, w, NO_OUTAGE, [], gas).1 == Ok(RunRef(p, o, [], gas)))
  {
    FaithfulRunIsRefined(w, hash, run);
    ModelIsUncached(w, hash, run);
    var t := Execute(w, hash, run);
    RunAnswersView(p, t.db, w, net, [], gas);
    RunAnswersView(p, t.db, w, NO_OUTAGE, [], gas);
    SameWorldsSameRun(p, View(t.db.cur, w), t.model, [], gas);
    if Covered(t.db) {
      RunDoesNotPanic(p, t.db, w, NO_OUTAGE, [], gas);
    }
  }
}
