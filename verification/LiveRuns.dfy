/** Runs that touch no destroyed account: a condition on the operations alone under which a run is safe and,
    if no info or code is hidden, faithful. */
module LiveRuns {
  import opened Types
  import opened Layers
  import opened Transitions
  import opened Reads
  import opened Commits
  import opened Overlay
  import opened Runs

  function NextDead(dead: set<Address>, op: Op): set<Address> {
    match op
    case PutStorage(a, _) => dead - {a}
    case CommitBatch(changes, _) =>
      dead - (set a | a in changes && changes[a].touched && changes[a].created)
      + (set a | a in changes && Destroys(changes[a]))
    case _ => dead
  }

  /** The accounts that a run destroyed and did not create again. */
  ghost function DeadAfter(w: World, hash: Hasher, run: seq<Event>): set<Address>
    requires AllWellFormed(run)
  {
    if run == [] then {}
    else
      var before, e := run[..|run| - 1], run[|run| - 1];
      var dead := DeadAfter(w, hash, before);
      if Step(Execute(w, hash, before).db, w, hash, e.faults, e.op).1.Ok? then NextDead(dead, e.op) else dead
  }

  /** No plain change reaches a destroyed account. */
  ghost predicate NoRevival(dead: set<Address>, op: Op) {
    op.CommitBatch? ==> forall a <- op.changes :: Plain(op.changes[a]) ==> a !in dead
  }

  ghost predicate LiveRun(w: World, hash: Hasher, run: seq<Event>)
    requires AllWellFormed(run)
  {
    run == [] ||
    (var before := run[..|run| - 1];
     LiveRun(w, hash, before) && NoRevival(DeadAfter(w, hash, before), run[|run| - 1].op))
  }

  /** No info is put at an account cached as absent, and no code meets different code under its hash. */
  ghost predicate VisibleRun(w: World, hash: Hasher, run: seq<Event>)
    requires AllWellFormed(run)
  {
    run == [] ||
    (var before, op := run[..|run| - 1], run[|run| - 1].op;
     var l := Execute(w, hash, before).db.cur;
     && VisibleRun(w, hash, before)
     && (op.PutInfo? && op.address in l.accounts ==> !l.accounts[op.address].status.NotExisting?)
     && CodeFits(l, op, hash))
  }

  /** An account cached as non-existing that was not destroyed is absent from the backend, and its
      unwritten slots are 0 in the checkpoint too. */
  ghost predicate AbsentUnlessDead(s: State, w: World, dead: set<Address>) {
    forall a <- s.cur.accounts :: s.cur.accounts[a].status.NotExisting? && a !in dead ==>
      && w.info(a).None?
      && forall i: U256 :: i !in s.cur.accounts[a].storage ==> SlotAt(s.orig, w, a, i) == 0
  }

  lemma CommitKeepsAbsent(s: State, w: World, hash: Hasher, op: Op, dead: set<Address>)
    requires op.CommitBatch? && Enumerates(op.order, op.changes.Keys) && AbsentUnlessDead(s, w, dead)
    ensures AbsentUnlessDead(s.(cur := CommitInOrder(s.cur, op.changes, op.order, hash)), w, NextDead(dead, op))
  {
    CommitMeaning(s.cur, op.changes, op.order, hash);
    var s' := s.(cur := CommitInOrder(s.cur, op.changes, op.order, hash));
    forall a | a in s'.cur.accounts && s'.cur.accounts[a].status.NotExisting? && a !in NextDead(dead, op)
      ensures a in s.cur.accounts && s'.cur.accounts[a] == s.cur.accounts[a] && a !in dead
    {
      assert !TouchedBy(op.changes, a);
    }
  }

  lemma ReadKeepsAbsent(s: State, w: World, f: Faults, q: Query, dead: set<Address>)
    requires CheckpointSafe(s, w) && AbsentUnlessDead(s, w, dead) && AbsentIsZeroOutside(s.cur, w)
    ensures AbsentUnlessDead(Read(s, w, f, q).0, w, dead)
  {
    ReadKeepsOriginals(s, w, f, q);
    ReadOnlyWarms(s, w, f, q);
    WarmKeepsAbsent(s, Read(s, w, f, q).0, w, dead);
  }

  lemma WarmKeepsAbsent(s: State, s': State, w: World, dead: set<Address>)
    requires CheckpointSafe(s, w) && AbsentUnlessDead(s, w, dead) && AbsentIsZeroOutside(s.cur, w)
    requires Warmed(s, s', w) && Same(View(s'.orig, w), View(s.orig, w))
    ensures AbsentUnlessDead(s', w, dead)
  {
    forall a, i: U256 | a in s'.cur.accounts && s'.cur.accounts[a].status.NotExisting? && a !in dead
      ensures w.info(a).None? && (i !in s'.cur.accounts[a].storage ==> SlotAt(s'.orig, w, a, i) == 0)
    {
      assert View(s'.orig, w).slot(a, i) == View(s.orig, w).slot(a, i);
      if a !in s.cur.accounts {
        assert Fresh(s'.cur.accounts[a], w, a);
      }
    }
  }

  /** Storing slots of an account, or clearing it, after loading it. */
  lemma StoreKeepsAbsent(s: State, w: World, a: Address, acc: DbAccount, dead: set<Address>, dead': set<Address>)
    requires AbsentUnlessDead(s, w, dead) && a in s.cur.accounts
    requires dead - {a} <= dead'
    requires acc.status.NotExisting? ==>
      a !in dead' ==> a !in dead && s.cur.accounts[a].status.NotExisting? && s.cur.accounts[a].storage.Keys <= acc.storage.Keys
    ensures AbsentUnlessDead(s.(cur := s.cur.(accounts := s.cur.accounts[a := acc])), w, dead')
  {
  }

  lemma PutKeepsAbsent(s: State, w: World, hash: Hasher, f: Faults, op: Op, dead: set<Address>)
    requires CheckpointSafe(s, w) && AbsentUnlessDead(s, w, dead) && AbsentIsZeroOutside(s.cur, w)
    requires op.PutSlot? || op.PutStorage?
    ensures var (s', r) := Step(s, w, hash, f, op);
            AbsentUnlessDead(s', w, if r.Ok? then NextDead(dead, op) else dead)
  {
    var a := if op.PutSlot? then op.account else op.owner;
    ReadKeepsAbsent(s, w, f, Basic(a), dead);
    var (s1, r) := LoadAccount(s, w, f, a);
    assert Read(s, w, f, Basic(a)).0 == s1;
    if r.Ok? {
      if op.PutSlot? {
        StoreKeepsAbsent(s1, w, a, AddSlot(s1.cur.accounts[a], op.index, op.value), dead, dead);
      } else {
        StoreKeepsAbsent(s1, w, a, s1.cur.accounts[a].(status := StorageCleared, storage := op.storage), dead, dead - {a});
      }
    }
  }

  lemma StepKeepsAbsent(s: State, w: World, hash: Hasher, f: Faults, op: Op, dead: set<Address>)
    requires CheckpointSafe(s, w) && AbsentUnlessDead(s, w, dead) && AbsentIsZero(w) && WellFormed(op)
    ensures var (s', r) := Step(s, w, hash, f, op);
            AbsentUnlessDead(s', w, if r.Ok? then NextDead(dead, op) else dead)
  {
    match op
    case Ask(q) => ReadKeepsAbsent(s, w, f, q, dead);
    case PutInfo(_, _) =>
    case PutSlot(_, _, _) => PutKeepsAbsent(s, w, hash, f, op, dead);
    case PutStorage(_, _) => PutKeepsAbsent(s, w, hash, f, op, dead);
    case CommitBatch(_, _) => CommitKeepsAbsent(s, w, hash, op, dead);
    case Sync =>
  }

  lemma {:induction false} LiveRunIsAbsent(w: World, hash: Hasher, run: seq<Event>)
    requires AbsentIsZero(w) && AllWellFormed(run) && LiveRun(w, hash, run)
    ensures SafeRun(w, hash, run) && AbsentUnlessDead(Execute(w, hash, run).db, w, DeadAfter(w, hash, run))
    decreases |run|
  {
    if run != [] {
      var before, e := run[..|run| - 1], run[|run| - 1];
      var s := Execute(w, hash, before).db;
      LiveRunIsAbsent(w, hash, before);
      SafeRunIsIsolated(w, hash, before);
      StepKeepsAbsent(s, w, hash, e.faults, e.op, DeadAfter(w, hash, before));
      NoRevivalIsSafe(s, w, DeadAfter(w, hash, before), e.op);
    }
  }

  lemma NoRevivalIsSafe(s: State, w: World, dead: set<Address>, op: Op)
    requires AbsentIsZero(w) && AbsentUnlessDead(s, w, dead) && NoRevival(dead, op)
    ensures SafeStep(s, w, op)
    ensures op.CommitBatch? ==> forall a: Address, i: U256 :: RevivesNothing(s.cur, w, op.changes, a, i)
  {
    if op.CommitBatch? {
      forall a: Address, i: U256
        ensures RevivalMatchesCheckpoint(s, w, op.changes, a, i) && RevivesNothing(s.cur, w, op.changes, a, i)
      {
        assert w.info(a).None? ==> w.slot(a, i) == 0;
      }
    }
  }

  /** A run that plainly touches no destroyed account is safe; if it hides nothing either, it is faithful. */
  lemma {:induction false} LiveRunIsSafeAndFaithful(w: World, hash: Hasher, run: seq<Event>)
    requires AbsentIsZero(w) && AllWellFormed(run) && LiveRun(w, hash, run)
    ensures SafeRun(w, hash, run)
    ensures VisibleRun(w, hash, run) ==> FaithfulRun(w, hash, run)
    decreases |run|
  {
    LiveRunIsAbsent(w, hash, run);
    if run != [] {
      var before := run[..|run| - 1];
      LiveRunIsSafeAndFaithful(w, hash, before);
      LiveRunIsAbsent(w, hash, before);
      NoRevivalIsSafe(Execute(w, hash, before).db, w, DeadAfter(w, hash, before), run[|run| - 1].op);
    }
  }
}
