/** Short runs in which a plausible claim about the database fails. Each shows that a condition of the
    general results cannot be dropped. */
module Witnesses {
  import opened Types
  import opened Layers
  import opened Transitions
  import opened Overlay
  import opened Runs
  import opened LiveRuns

  /** A backend with one account, at 1, whose every slot holds 7, and nothing else. */
  const ONE_ACCOUNT: World := World(
    (a: Address) => if a == 1 then Some(DEFAULT_INFO) else None,
    (a: Address, i: U256) => if a == 1 then 7 else 0,
    (h: B256) => [],
    (n: U64) => 0)

  const RICH: AccountInfo := DEFAULT_INFO.(balance := 100)

  const DESTROY: Changes := map[1 := Change(DEFAULT_INFO, map[], true, true, false)]
  const TOUCH: Changes := map[1 := Change(RICH, map[], true, false, false)]

  function Step1(s: State, hash: Hasher, op: Op): State
    requires op.CommitBatch? ==> forall a <- op.order :: a in op.changes
  {
    Step(s, ONE_ACCOUNT, hash, NO_FAULTS, op).0
  }

  lemma CommitSingle(l: Layer, changes: Changes, a: Address, hash: Hasher)
    requires a in changes
    ensures CommitInOrder(l, changes, [a], hash) == CommitOne(l, a, changes[a], hash)
  {
    assert [a][..0] == [];
  }

  /** An account that is destroyed and then plainly touched shows the backend's storage again, where the
      uncached model has none. */
  lemma RevivedAccountShowsBackend(hash: Hasher)
    ensures var s1 := Step1(NEW_STATE, hash, CommitBatch(DESTROY, [1]));
            var s2 := Step1(s1, hash, CommitBatch(TOUCH, [1]));
            && SlotAt(s1.cur, ONE_ACCOUNT, 1, 5) == 0
            && SlotAt(s2.cur, ONE_ACCOUNT, 1, 5) == 7
            && !Faithful(s1, ONE_ACCOUNT, hash, NO_FAULTS, CommitBatch(TOUCH, [1]))
  {
    CommitSingle(NEW_STATE.cur, DESTROY, 1, hash);
    var s1 := Step1(NEW_STATE, hash, CommitBatch(DESTROY, [1]));
    CommitSingle(s1.cur, TOUCH, 1, hash);
    assert !RevivesNothing(s1.cur, ONE_ACCOUNT, TOUCH, 1, 5);
  }

  /** The same revival after a checkpoint corrupts the checkpoint: the next read of a slot overwrites the
      value it had. */
  lemma RevivedAccountSpoilsCheckpoint(hash: Hasher)
    ensures var s1 := Step1(NEW_STATE, hash, PutSlot(1, 5, 9));
            var s2 := SyncOriginals(s1);
            var s3 := Step1(s2, hash, CommitBatch(DESTROY, [1]));
            var s4 := Step1(s3, hash, CommitBatch(TOUCH, [1]));
            var s5 := Step1(s4, hash, Ask(Slot(1, 5)));
            SlotAt(Clone(s4).cur, ONE_ACCOUNT, 1, 5) == 9 && SlotAt(Clone(s5).cur, ONE_ACCOUNT, 1, 5) == 7
  {
    var s2 := SyncOriginals(Step1(NEW_STATE, hash, PutSlot(1, 5, 9)));
    CommitSingle(s2.cur, DESTROY, 1, hash);
    var s3 := Step1(s2, hash, CommitBatch(DESTROY, [1]));
    CommitSingle(s3.cur, TOUCH, 1, hash);
  }

  /** Info put at an account after it was read as absent stays invisible; put before, it is seen. */
  lemma InfoAfterReadIsInvisible(hash: Hasher)
    ensures var read := Step1(NEW_STATE, hash, Ask(Basic(2)));
            && InfoAt(Step1(read, hash, PutInfo(2, RICH)).cur, ONE_ACCOUNT, 2) == None
            && InfoAt(Step1(NEW_STATE, hash, PutInfo(2, RICH)).cur, ONE_ACCOUNT, 2) == Some(RICH)
  {
  }

  /** A slot of an account created by putting its info panics when read; after a checkpoint it does not. */
  lemma UnwrapPanicsBeforeSync(hash: Hasher)
    ensures var s := Step1(NEW_STATE, hash, PutInfo(1, RICH));
            && Read(s, ONE_ACCOUNT, NO_FAULTS, Slot(1, 5)).1 == Panic
            && !Faithful(s, ONE_ACCOUNT, hash, NO_FAULTS, Ask(Slot(1, 5)))
            && Read(SyncOriginals(s), ONE_ACCOUNT, NO_FAULTS, Slot(1, 5)).1 == Ok(WordIs(7))
  {
  }

  /** Replacing the storage of an absent account makes a default account visible. */
  lemma ReplacedStorageMakesAccount(hash: Hasher)
    ensures var s := Step1(NEW_STATE, hash, PutStorage(2, map[]));
            InfoAt(NEW_STATE.cur, ONE_ACCOUNT, 2) == None && InfoAt(s.cur, ONE_ACCOUNT, 2) == Some(DEFAULT_INFO)
  {
  }

  const EPHEMERAL: Op := CommitBatch(map[2 := Change(DEFAULT_INFO, map[], true, true, true)], [2])
  const PAY: Op := CommitBatch(map[2 := Change(RICH, map[], true, false, false)], [2])

  lemma AfterEphemeral(hash: Hasher)
    ensures var first := [Event(EPHEMERAL, NO_FAULTS)];
            var s := Execute(ONE_ACCOUNT, hash, first).db;
            && AllWellFormed(first) && SafeRun(ONE_ACCOUNT, hash, first) && FaithfulRun(ONE_ACCOUNT, hash, first)
            && DeadAfter(ONE_ACCOUNT, hash, first) == {2}
            && s.orig == EMPTY_LAYER && s.cur.accounts == map[2 := NOT_EXISTING_ACCOUNT]
  {
    assert [Event(EPHEMERAL, NO_FAULTS)][..0] == [];
    assert SafeRun(ONE_ACCOUNT, hash, []) && FaithfulRun(ONE_ACCOUNT, hash, []);
    CommitSingle(NEW_STATE.cur, EPHEMERAL.changes, 2, hash);
  }

  /** An account created and destroyed in one transaction and paid to later: the run touches a destroyed account,
      yet it is safe and faithful, for the backend never held storage of the account. */
  lemma HarmlessRevival(hash: Hasher)
    ensures var run := [Event(EPHEMERAL, NO_FAULTS), Event(PAY, NO_FAULTS)];
            && AllWellFormed(run)
            && !LiveRun(ONE_ACCOUNT, hash, run)
            && SafeRun(ONE_ACCOUNT, hash, run) && FaithfulRun(ONE_ACCOUNT, hash, run)
  {
    var run := [Event(EPHEMERAL, NO_FAULTS), Event(PAY, NO_FAULTS)];
    assert run[..1] == [Event(EPHEMERAL, NO_FAULTS)];
    AfterEphemeral(hash);
  }
}
