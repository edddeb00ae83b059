/** What every run keeps without any condition, and exactly when the `unwrap` of a slot read cannot fail. */
module RunInvariants {
  import opened Types
  import opened Layers
  import opened Transitions
  import opened Reads
  import opened Commits
  import opened Overlay
  import opened Programs
  import opened Runs

  /** Code and block hashes in the checkpoint are those of the cache. */
  ghost predicate OriginalsAgree(s: State) {
    && OriginalsCached(s)
    && (forall h <- s.orig.contracts :: s.orig.contracts[h] == s.cur.contracts[h])
    && (forall n <- s.orig.blockHashes :: s.orig.blockHashes[n] == s.cur.blockHashes[n])
  }

  /** Nothing cached is forgotten, and code and block hashes never change. */
  ghost predicate OnlyGrows(s: State, s': State) {
    && s.cur.accounts.Keys <= s'.cur.accounts.Keys
    && (forall h <- s.cur.contracts :: h in s'.cur.contracts && s'.cur.contracts[h] == s.cur.contracts[h])
    && (forall n <- s.cur.blockHashes :: n in s'.cur.blockHashes && s'.cur.blockHashes[n] == s.cur.blockHashes[n])
  }

  lemma ReadOnlyGrows(s: State, w: World, f: Faults, q: Query)
    requires OriginalsAgree(s)
    ensures var s' := Read(s, w, f, q).0; OriginalsAgree(s') && OnlyGrows(s, s')
  {
    ReadCases(s, w, f, q);
  }

  lemma StepOnlyGrows(s: State, w: World, hash: Hasher, f: Faults, op: Op)
    requires OriginalsAgree(s) && WellFormed(op)
    ensures var s' := Step(s, w, hash, f, op).0; OriginalsAgree(s') && OnlyGrows(s, s')
  {
    match op
    case Ask(q) => ReadOnlyGrows(s, w, f, q);
    case PutInfo(_, _) =>
    case PutSlot(a, _, _) => ReadOnlyGrows(s, w, f, Basic(a));
    case PutStorage(a, _) => ReadOnlyGrows(s, w, f, Basic(a));
    case CommitBatch(changes, order) => CommitMeaning(s.cur, changes, order, hash);
    case Sync =>
  }

  /** After any run, and for any way of cutting it in two. */
  lemma {:induction false} RunOnlyGrows(w: World, hash: Hasher, run: seq<Event>, k: nat)
    requires AllWellFormed(run) && k <= |run|
    ensures OriginalsAgree(Execute(w, hash, run).db)
    ensures OnlyGrows(Execute(w, hash, run[..k]).db, Execute(w, hash, run).db)
    decreases |run|
  {
    if run == [] {
      assert run[..k] == run;
    } else {
      var n := |run| - 1;
      var before := run[..n];
      RunOnlyGrows(w, hash, before, if k <= n then k else n);
      StepOnlyGrows(Execute(w, hash, before).db, w, hash, run[n].faults, run[n].op);
      if k <= n {
        assert before[..k] == run[..k];
      } else {
        assert run[..k] == run;
      }
    }
  }

  // ---- the unwrap ----

  /** A plain change that lets slot `i` be read through an account without a checkpoint entry. */
  predicate Uncovers(s: State, changes: Changes, a: Address, i: U256) {
    && a in changes && Plain(changes[a]) && a !in s.orig.accounts
    && i !in changes[a].storage
    && (a in s.cur.accounts ==> !s.cur.accounts[a].status.StorageCleared? && i !in s.cur.accounts[a].storage)
  }

  ghost predicate Backed(s: State, op: Op) {
    && (op.PutInfo? ==> op.address in s.cur.accounts)
    && (op.CommitBatch? ==> forall a: Address, i: U256 :: !Uncovers(s, op.changes, a, i))
  }

  lemma CommitKeepsCoveredExactly(s: State, w: World, hash: Hasher, op: Op)
    requires op.CommitBatch? && Enumerates(op.order, op.changes.Keys) && Covered(s)
    ensures Covered(s.(cur := CommitInOrder(s.cur, op.changes, op.order, hash))) <==>
            forall a: Address, i: U256 :: !Uncovers(s, op.changes, a, i)
  {
    CommitMeaning(s.cur, op.changes, op.order, hash);
    var s' := s.(cur := CommitInOrder(s.cur, op.changes, op.order, hash));
    forall a: Address, i: U256
      ensures (a in s'.cur.accounts && !Local(s'.cur, Slot(a, i)) && a !in s.orig.accounts)
              <==> Uncovers(s, op.changes, a, i)
    {
      assert a in s.cur.accounts && !Local(s.cur, Slot(a, i)) ==> a in s.orig.accounts;
    }
  }

  lemma PutKeepsCovered(s: State, w: World, hash: Hasher, f: Faults, op: Op)
    requires Covered(s) && OriginalsCached(s) && (op.PutSlot? || op.PutStorage?)
    ensures Covered(Step(s, w, hash, f, op).0)
  {
    var a := if op.PutSlot? then op.account else op.owner;
    var (s1, r) := LoadAccount(s, w, f, a);
    assert Covered(s1);
    var s' := Step(s, w, hash, f, op).0;
    if r.Ok? {
      forall b: Address, i: U256 | b in s'.cur.accounts && !Local(s'.cur, Slot(b, i)) ensures b in s'.orig.accounts {
        assert !Local(s1.cur, Slot(b, i));
      }
    }
  }

  lemma PutInfoKeepsCoveredExactly(s: State, w: World, hash: Hasher, f: Faults, op: Op)
    requires Covered(s) && OriginalsCached(s) && op.PutInfo?
    ensures Covered(Step(s, w, hash, f, op).0) <==> Backed(s, op)
  {
    var s' := Step(s, w, hash, f, op).0;
    if op.address !in s.cur.accounts {
      assert !Local(s'.cur, Slot(op.address, 0));
    } else {
      assert forall b: Address, i: U256 :: Local(s'.cur, Slot(b, i)) == Local(s.cur, Slot(b, i));
    }
  }

  /** A step keeps every slot covered exactly if its info and plain changes go to accounts that are. */
  lemma StepKeepsCoveredExactly(s: State, w: World, hash: Hasher, f: Faults, op: Op)
    requires Covered(s) && OriginalsCached(s) && WellFormed(op)
    ensures Covered(Step(s, w, hash, f, op).0) <==> Backed(s, op)
  {
    match op
    case Ask(q) => ReadKeepsCovered(s, w, f, q);
    case PutInfo(_, _) => PutInfoKeepsCoveredExactly(s, w, hash, f, op);
    case PutSlot(_, _, _) => PutKeepsCovered(s, w, hash, f, op);
    case PutStorage(_, _) => PutKeepsCovered(s, w, hash, f, op);
    case CommitBatch(_, _) => CommitKeepsCoveredExactly(s, w, hash, op);
    case Sync =>
  }

  /** A checkpoint covers every slot, whatever the state. */
  lemma SyncCovers(s: State)
    ensures Covered(SyncOriginals(s)) && OriginalsCached(SyncOriginals(s))
  {
  }

  /** Since the last checkpoint, infos and plain changes went to covered accounts. */
  ghost predicate BackedRun(w: World, hash: Hasher, run: seq<Event>)
    requires AllWellFormed(run)
  {
    run == [] || run[|run| - 1].op.Sync? ||
    (var before := run[..|run| - 1];
     BackedRun(w, hash, before) && Backed(Execute(w, hash, before).db, run[|run| - 1].op))
  }

  /** At every moment since the last checkpoint every slot is covered. */
  ghost predicate CoveredSinceSync(w: World, hash: Hasher, run: seq<Event>)
    requires AllWellFormed(run)
  {
    && Covered(Execute(w, hash, run).db)
    && (run == [] || run[|run| - 1].op.Sync? || CoveredSinceSync(w, hash, run[..|run| - 1]))
  }

  /** Exactly: at every moment since the last checkpoint no read can panic, if and only if infos and plain changes
      went to covered accounts since then. */
  lemma {:induction false} BackedRunIsExact(w: World, hash: Hasher, run: seq<Event>)
    requires AllWellFormed(run)
    ensures BackedRun(w, hash, run) <==> CoveredSinceSync(w, hash, run)
    decreases |run|
  {
    if run != [] {
      var n := |run| - 1;
      if run[n].op.Sync? {
        SyncCovers(Execute(w, hash, run[..n]).db);
      } else {
        BackedRunIsExact(w, hash, run[..n]);
        RunOnlyGrows(w, hash, run[..n], 0);
        if Covered(Execute(w, hash, run[..n]).db) {
          StepKeepsCoveredExactly(Execute(w, hash, run[..n]).db, w, hash, run[n].faults, run[n].op);
        }
      }
    }
  }

  /** After a run whose writes since the last checkpoint go to covered accounts no program panics, whatever the
      faults, and one that meets no fault finishes. */
  lemma {:induction false} BackedRunNeverPanics<R>(w: World, hash: Hasher, run: seq<Event>, p: Program<R>,
                                                   net: Network, gas: nat)
    requires AllWellFormed(run) && BackedRun(w, hash, run)
    ensures var t := Execute(w, hash, run);
            && !Run(p, t.db, w, net, [], gas).1.Panic?
            && Run(p, t.db, w, NO_OUTAGE, [], gas).1.Ok?
  {
    BackedRunIsExact(w, hash, run);
    RunDoesNotPanic(p, Execute(w, hash, run).db, w, net, [], gas);
    RunDoesNotPanic(p, Execute(w, hash, run).db, w, NO_OUTAGE, [], gas);
  }

  // ---- runs without faults ----

  ghost predicate FaultFree(run: seq<Event>) {
    forall e <- run, q: Query :: e.faults(q).None?
  }

  /** Without faults an event either succeeds or is a read, which means nothing to the model. */
  lemma FaultFreeStepIsMeant(t: Trace, w: World, hash: Hasher, e: Event)
    requires WellFormed(e.op) && forall q: Query :: e.faults(q).None?
    ensures Same(Advance(t, w, hash, e).model, Effect(t.model, e.op, hash))
  {
    StepFailureChangesNothing(t.db, w, hash, e.faults, e.op);
    if e.op.Ask? {
      assert forall a: Address :: InfoAfter(t.model, e.op, hash, a) == t.model.info(a);
      assert forall a: Address, i: U256 :: SlotAfter(t.model, e.op, a, i) == t.model.slot(a, i);
      assert forall h: B256 :: CodeAfter(t.model, e.op, hash, h) == t.model.code(h);
    }
  }

  /** The model of a run without faults is the uncached database after all its operations. */
  lemma {:induction false} FaultFreeRunIsMeant(w: World, hash: Hasher, run: seq<Event>)
    requires AllWellFormed(run) && FaultFree(run)
    ensures Same(Execute(w, hash, run).model, Model(View(NEW_STATE.cur, w), hash, run))
    decreases |run|
  {
    if run != [] {
      var before, e := run[..|run| - 1], run[|run| - 1];
      FaultFreeRunIsMeant(w, hash, before);
      FaultFreeStepIsMeant(Execute(w, hash, before), w, hash, e);
      SameEffect(Execute(w, hash, before).model, Model(View(NEW_STATE.cur, w), hash, before), e.op, hash);
    }
  }

  /** The total form: after a faithful run without faults, whose infos and plain changes since the last
      checkpoint go to covered accounts, every program finishes on the cache with the result it has on the
      uncached database after the same operations. */
  lemma {:induction false} CacheIsTransparent<R>(w: World, hash: Hasher, run: seq<Event>, p: Program<R>, gas: nat)
    requires AbsentIsZero(w) && AllWellFormed(run) && AllOneCode(run, hash) && FaithfulRun(w, hash, run)
    requires BackedRun(w, hash, run) && FaultFree(run)
    ensures Run(p, Execute(w, hash, run).db, w, NO_OUTAGE, [], gas).1
            == Ok(RunRef(p, Model(View(NEW_STATE.cur, w), hash, run), [], gas))
  {
    BackedRunIsExact(w, hash, run);
    CacheIsInvisible(w, hash, run, p, NO_OUTAGE, gas);
    ModelIsUncached(w, hash, run);
    FaultFreeRunIsMeant(w, hash, run);
    SameWorldsSameRun(p, Execute(w, hash, run).model, Model(View(NEW_STATE.cur, w), hash, run), [], gas);
  }
}
