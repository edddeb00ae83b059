/** What the caching reads keep: the view, the checkpoint, and the guarantee that no `unwrap` fails. */
module Reads {
  import opened Types
  import opened Layers
  import opened Transitions

  /** Everything in the checkpoint is cached too. */
  ghost predicate OriginalsCached(s: State) {
    && s.orig.accounts.Keys <= s.cur.accounts.Keys
    && s.orig.contracts.Keys <= s.cur.contracts.Keys
    && s.orig.blockHashes.Keys <= s.cur.blockHashes.Keys
  }

  /** A slot that can still be read through a checkpointed account has, in the checkpoint, its backend value. */
  ghost predicate CheckpointSafe(s: State, w: World) {
    && OriginalsCached(s)
    && forall a: Address, i: U256 ::
         a in s.orig.accounts && s.cur.accounts[a].ReadsThrough() && i !in s.cur.accounts[a].storage
         ==> SlotAt(s.orig, w, a, i) == w.slot(a, i)
  }

  /** Every slot still to be read through a cached account belongs to an account with a checkpoint entry. */
  ghost predicate Covered(s: State) {
    forall a: Address, i: U256 :: a in s.cur.accounts && !Local(s.cur, Slot(a, i)) ==> a in s.orig.accounts
  }

  /** Absent accounts the cache has not met have no storage. */
  ghost predicate AbsentIsZeroOutside(l: Layer, w: World) {
    forall a: Address, i: U256 :: a !in l.accounts && w.info(a).None? ==> w.slot(a, i) == 0
  }

  /** The cache met account `a` by reading it from the database and nothing else. */
  ghost predicate Fresh(acc: DbAccount, w: World, a: Address) {
    && acc.info == Loaded(w, a).info && acc.status == Loaded(w, a).status
    && forall i <- acc.storage :: acc.storage[i] == w.slot(a, i)
  }

  /** `s'` differs from `s` by cached backend entries only. */
  ghost predicate Warmed(s: State, s': State, w: World) {
    && (forall a <- s.cur.accounts ::
          && a in s'.cur.accounts
          && s'.cur.accounts[a].info == s.cur.accounts[a].info
          && s'.cur.accounts[a].status == s.cur.accounts[a].status
          && s.cur.accounts[a].storage.Keys <= s'.cur.accounts[a].storage.Keys
          && (!s.cur.accounts[a].ReadsThrough() ==> s'.cur.accounts[a] == s.cur.accounts[a]))
    && (forall a <- s'.cur.accounts :: a !in s.cur.accounts ==> Fresh(s'.cur.accounts[a], w, a))
    && (forall h <- s.cur.contracts :: h in s'.cur.contracts && s'.cur.contracts[h] == s.cur.contracts[h])
    && (forall h <- s'.cur.contracts :: h !in s.cur.contracts ==> s'.cur.contracts[h] == w.code(h))
  }

  /** A caching read that answers gives the answer of the view; one that does not changes nothing. */
  lemma ReadAnswersView(s: State, w: World, f: Faults, q: Query)
    requires AbsentIsZeroOutside(s.cur, w)
    ensures var (s', r) := Read(s, w, f, q);
            if r.Ok? then r.value == View(s.cur, w).Get(q) else s' == s
  {
  }

  // ---- the four ways in which a read changes a layer ----

  /** The first sight of an account. */
  lemma CacheAccountKeepsView(l: Layer, w: World, a: Address, acc: DbAccount)
    requires a !in l.accounts && Fresh(acc, w, a)
    requires w.info(a).None? ==> forall i: U256 :: w.slot(a, i) == 0
    ensures Same(View(l.(accounts := l.accounts[a := acc]), w), View(l, w))
  {
    var l' := l.(accounts := l.accounts[a := acc]);
    forall b: Address, i: U256 ensures SlotAt(l', w, b, i) == SlotAt(l, w, b, i) {
      if b == a && i !in acc.storage {
      }
    }
  }

  /** A slot read through a cached account. */
  lemma AddSlotKeepsView(l: Layer, w: World, a: Address, i: U256)
    requires a in l.accounts && SlotAt(l, w, a, i) == w.slot(a, i)
    ensures Same(View(l.(accounts := l.accounts[a := AddSlot(l.accounts[a], i, w.slot(a, i))]), w), View(l, w))
  {
  }

  lemma AddCodeKeepsView(l: Layer, w: World, h: B256)
    requires h !in l.contracts
    ensures Same(View(l.(contracts := l.contracts[h := w.code(h)]), w), View(l, w))
  {
  }

  lemma AddHashKeepsView(l: Layer, w: World, n: U64)
    requires n !in l.blockHashes
    ensures Same(View(l.(blockHashes := l.blockHashes[n := w.blockHash(n)]), w), View(l, w))
  {
  }

  /** The account a vacant read of a slot caches. */
  function FirstSlot(w: World, a: Address, i: U256): (acc: DbAccount)
    ensures acc.status == Loaded(w, a).status
  {
    if w.info(a).None? then Loaded(w, a) else AddSlot(Loaded(w, a), i, w.slot(a, i))
  }

  /** A read leaves the state as it was or changes both of its layers in one of four ways. */
  lemma ReadCases(s: State, w: World, f: Faults, q: Query)
    ensures var s' := Read(s, w, f, q).0;
            || s' == s
            || (q.Basic? && q.address !in s.cur.accounts && s' == CacheAccount(s, q.address, Loaded(w, q.address)))
            || (q.Slot? && q.account !in s.cur.accounts && s' == CacheAccount(s, q.account, FirstSlot(w, q.account, q.index)))
            || (q.Slot? && q.account in s.cur.accounts && q.account in s.orig.accounts && !Local(s.cur, q)
                && s' == CacheSlot(s, q.account, q.index, w.slot(q.account, q.index)))
            || (q.Code? && q.hash !in s.cur.contracts
                && s' == State(s.cur.(contracts := s.cur.contracts[q.hash := w.code(q.hash)]),
                               s.orig.(contracts := s.orig.contracts[q.hash := w.code(q.hash)])))
            || (q.BlockHash? && q.number !in s.cur.blockHashes
                && s' == State(s.cur.(blockHashes := s.cur.blockHashes[q.number := w.blockHash(q.number)]),
                               s.orig.(blockHashes := s.orig.blockHashes[q.number := w.blockHash(q.number)])))
  {
  }

  // ---- what a read keeps ----

  /** Every caching read keeps every answer of the view. */
  lemma ReadKeepsView(s: State, w: World, f: Faults, q: Query)
    requires AbsentIsZeroOutside(s.cur, w)
    ensures var s' := Read(s, w, f, q).0;
            Same(View(s'.cur, w), View(s.cur, w)) && AbsentIsZeroOutside(s'.cur, w)
  {
    ReadCases(s, w, f, q);
    if Read(s, w, f, q).0 != s {
      match q
      case Basic(a) => CacheAccountKeepsView(s.cur, w, a, Loaded(w, a));
      case Slot(a, i) =>
        if a in s.cur.accounts {
          AddSlotKeepsView(s.cur, w, a, i);
        } else {
          CacheAccountKeepsView(s.cur, w, a, FirstSlot(w, a, i));
        }
      case Code(h) => AddCodeKeepsView(s.cur, w, h);
      case BlockHash(n) => AddHashKeepsView(s.cur, w, n);
    }
  }

  /** A read keeps every slot that can be read through covered. */
  lemma ReadKeepsCovered(s: State, w: World, f: Faults, q: Query)
    requires Covered(s)
    ensures Covered(Read(s, w, f, q).0)
  {
    var s' := Read(s, w, f, q).0;
    ReadCases(s, w, f, q);
    forall b: Address, i: U256 | b in s'.cur.accounts && !Local(s'.cur, Slot(b, i)) ensures b in s'.orig.accounts {
      if b in s.cur.accounts {
        assert !Local(s.cur, Slot(b, i));
      }
    }
  }

  /** A read adds backend entries to the cache and nothing else. */
  lemma ReadOnlyWarms(s: State, w: World, f: Faults, q: Query)
    ensures Warmed(s, Read(s, w, f, q).0, w)
  {
    ReadCases(s, w, f, q);
  }

  lemma CacheAccountKeepsSafe(s: State, w: World, a: Address, acc: DbAccount)
    requires CheckpointSafe(s, w) && a !in s.cur.accounts
    requires acc.ReadsThrough() ==> w.info(a).Some? && forall i <- acc.storage :: acc.storage[i] == w.slot(a, i)
    ensures CheckpointSafe(CacheAccount(s, a, acc), w)
  {
    var s' := CacheAccount(s, a, acc);
    forall b: Address, i: U256 | b in s'.orig.accounts && s'.cur.accounts[b].ReadsThrough() && i !in s'.cur.accounts[b].storage
      ensures SlotAt(s'.orig, w, b, i) == w.slot(b, i)
    {
      if b != a {
        assert SlotAt(s'.orig, w, b, i) == SlotAt(s.orig, w, b, i);
      }
    }
  }

  lemma CacheSlotKeepsSafe(s: State, w: World, a: Address, i: U256)
    requires CheckpointSafe(s, w) && a in s.cur.accounts && a in s.orig.accounts && !Local(s.cur, Slot(a, i))
    ensures CheckpointSafe(CacheSlot(s, a, i, w.slot(a, i)), w)
  {
    var s' := CacheSlot(s, a, i, w.slot(a, i));
    forall b: Address, j: U256 | b in s'.orig.accounts && s'.cur.accounts[b].ReadsThrough() && j !in s'.cur.accounts[b].storage
      ensures SlotAt(s'.orig, w, b, j) == w.slot(b, j)
    {
      assert SlotAt(s'.orig, w, b, j) == SlotAt(s.orig, w, b, j);
    }
  }

  /** A change of the other maps does not concern the accounts. */
  lemma SameAccountsKeepSafe(s: State, s': State, w: World)
    requires CheckpointSafe(s, w) && OriginalsCached(s')
    requires s'.cur.accounts == s.cur.accounts && s'.orig.accounts == s.orig.accounts
    ensures CheckpointSafe(s', w)
  {
    forall b: Address, i: U256 | b in s'.orig.accounts && s'.cur.accounts[b].ReadsThrough() && i !in s'.cur.accounts[b].storage
      ensures SlotAt(s'.orig, w, b, i) == w.slot(b, i)
    {
      assert SlotAt(s'.orig, w, b, i) == SlotAt(s.orig, w, b, i);
    }
  }

  /** From a safe state, a read stays in safe states. */
  lemma ReadKeepsSafe(s: State, w: World, f: Faults, q: Query)
    requires CheckpointSafe(s, w)
    ensures CheckpointSafe(Read(s, w, f, q).0, w)
  {
    var s' := Read(s, w, f, q).0;
    ReadCases(s, w, f, q);
    if s' != s {
      match q
      case Basic(a) => CacheAccountKeepsSafe(s, w, a, Loaded(w, a));
      case Slot(a, i) =>
        if a in s.cur.accounts {
          CacheSlotKeepsSafe(s, w, a, i);
        } else {
          CacheAccountKeepsSafe(s, w, a, FirstSlot(w, a, i));
        }
      case Code(_) => SameAccountsKeepSafe(s, s', w);
      case BlockHash(_) => SameAccountsKeepSafe(s, s', w);
    }
  }

  /** From a safe state, a read changes no answer of the checkpoint, and leaves it safe. */
  lemma ReadKeepsCheckpoint(s: State, w: World, f: Faults, q: Query)
    requires AbsentIsZeroOutside(s.cur, w) && CheckpointSafe(s, w)
    ensures var s' := Read(s, w, f, q).0;
            CheckpointSafe(s', w) && Same(View(s'.orig, w), View(s.orig, w))
  {
    ReadKeepsSafe(s, w, f, q);
    ReadKeepsOriginals(s, w, f, q);
  }

  lemma ReadKeepsOriginals(s: State, w: World, f: Faults, q: Query)
    requires AbsentIsZeroOutside(s.cur, w) && CheckpointSafe(s, w)
    ensures Same(View(Read(s, w, f, q).0.orig, w), View(s.orig, w))
  {
    ReadCases(s, w, f, q);
    if Read(s, w, f, q).0 != s {
      match q
      case Basic(a) => CacheAccountKeepsView(s.orig, w, a, Loaded(w, a));
      case Slot(a, i) =>
        if a in s.cur.accounts {
          AddSlotKeepsView(s.orig, w, a, i);
        } else {
          CacheAccountKeepsView(s.orig, w, a, FirstSlot(w, a, i));
        }
      case Code(h) => AddCodeKeepsView(s.orig, w, h);
      case BlockHash(n) => AddHashKeepsView(s.orig, w, n);
    }
  }

  // ---- exactly when ----

  /** Without the zero-storage assumption some read of a slot changes the view; with it none does. */
  lemma ReadsKeepViewExactly(s: State, w: World)
    ensures AbsentIsZeroOutside(s.cur, w) <==>
            forall q: Query :: Same(View(Read(s, w, NO_FAULTS, q).0.cur, w), View(s.cur, w))
  {
    if AbsentIsZeroOutside(s.cur, w) {
      forall q: Query ensures Same(View(Read(s, w, NO_FAULTS, q).0.cur, w), View(s.cur, w)) {
        ReadKeepsView(s, w, NO_FAULTS, q);
      }
    } else {
      var a: Address, i: U256 :| a !in s.cur.accounts && w.info(a).None? && w.slot(a, i) != 0;
      var v := View(Read(s, w, NO_FAULTS, Basic(a)).0.cur, w);
      assert v.slot(a, i) != View(s.cur, w).slot(a, i);
    }
  }

  /** The `unwrap` of the checkpoint entry fails: a slot is read through a cached account that has none. */
  predicate UnwrapFails(s: State, f: Faults, q: Query) {
    && q.Slot? && q.account in s.cur.accounts && !Local(s.cur, q)
    && f(q).None? && q.account !in s.orig.accounts
  }

  /** The caching read agrees with its pure twin unless the `unwrap` fails, and except on a slot of an
      uncached account, where it asks for the account first: then they agree exactly if that question succeeds
      on an account with zero storage or an existing one, or both fail with one error. */
  lemma ReadAgainstTwin(s: State, w: World, f: Faults, q: Query)
    ensures Read(s, w, f, q).1 == ReadRef(s.cur, w, f, q) <==>
            !UnwrapFails(s, f, q) &&
            (q.Slot? && q.account !in s.cur.accounts ==>
               match f(Basic(q.account))
               case Some(e) => f(q) == Some(e)
               case None => w.info(q.account).Some? || (f(q).None? && w.slot(q.account, q.index) == 0))
  {
  }

  /** The `unwrap` of a read panics exactly on a slot read through an account without a checkpoint entry. */
  lemma ReadPanicsExactly(s: State, w: World, f: Faults, q: Query)
    ensures Read(s, w, f, q).1.Panic? <==> UnwrapFails(s, f, q)
  {
  }

  /** So no read of any key panics exactly if every slot read through is covered. */
  lemma CoveredIsExact(s: State, w: World)
    ensures Covered(s) <==> forall q: Query, f: Faults :: !Read(s, w, f, q).1.Panic?
  {
    if !Covered(s) {
      var a: Address, i: U256 :| a in s.cur.accounts && !Local(s.cur, Slot(a, i)) && a !in s.orig.accounts;
      assert Read(s, w, NO_FAULTS, Slot(a, i)).1.Panic?;
    }
  }

  /** `CheckpointSafe` is exactly the condition under which no read can change the checkpoint. */
  lemma CheckpointSafeIsExact(s: State, w: World)
    requires OriginalsCached(s) && AbsentIsZeroOutside(s.cur, w)
    ensures CheckpointSafe(s, w) <==>
            forall q: Query :: Same(View(Read(s, w, NO_FAULTS, q).0.orig, w), View(s.orig, w))
  {
    if CheckpointSafe(s, w) {
      forall q: Query ensures Same(View(Read(s, w, NO_FAULTS, q).0.orig, w), View(s.orig, w)) {
        ReadKeepsOriginals(s, w, NO_FAULTS, q);
      }
    } else {
      var a: Address, i: U256 :| a in s.orig.accounts && s.cur.accounts[a].ReadsThrough()
        && i !in s.cur.accounts[a].storage && SlotAt(s.orig, w, a, i) != w.slot(a, i);
      var v := View(Read(s, w, NO_FAULTS, Slot(a, i)).0.orig, w);
      assert v.slot(a, i) == w.slot(a, i) != View(s.orig, w).slot(a, i);
    }
  }

  // ---- what a read learns ----

  /** The account a question is about. */
  function AccountOf(q: Query): Option<Address> {
    match q
    case Basic(a) => Some(a)
    case Slot(a, _) => Some(a)
    case _ => None
  }

  /** A read that answers caches what it answers: asked again, under any faults and over any backend, it gives
      the same answer and changes nothing. What came from the backend is in the checkpoint too. */
  lemma ReadCaches(s: State, w: World, f: Faults, v: World, g: Faults, q: Query)
    requires Read(s, w, f, q).1.Ok?
    ensures var (s', r) := Read(s, w, f, q);
            && Read(s', v, g, q) == (s', r)
            && Local(s'.cur, q) && LocalAnswer(s'.cur, q) == r.value
            && (!Local(s.cur, q) ==> Local(s'.orig, q) && LocalAnswer(s'.orig, q) == r.value)
  {
  }

  /** A question `q'` can be answered from the cache after the read of `q`. */
  predicate Learned(s: State, w: World, q: Query, q': Query) {
    || q' == q
    || (&& AccountOf(q).Some? && AccountOf(q).value !in s.cur.accounts
        && (q' == Basic(AccountOf(q).value)
            || (q'.Slot? && q'.account == AccountOf(q).value && w.info(AccountOf(q).value).None?)))
  }

  /** Exactly what a read adds to the questions the cache answers by itself: the question itself, the account it
      is about, and all slots of that account if it is absent. The answers known before stay. */
  lemma ReadLearnsExactly(s: State, w: World, f: Faults, q: Query, q': Query)
    requires Read(s, w, f, q).1.Ok?
    ensures var s' := Read(s, w, f, q).0;
            && (Local(s'.cur, q') <==> Local(s.cur, q') || Learned(s, w, q, q'))
            && (Local(s.cur, q') ==> LocalAnswer(s'.cur, q') == LocalAnswer(s.cur, q'))
  {
    ReadCases(s, w, f, q);
    match q'
    case Basic(_) =>
    case Slot(_, _) =>
    case Code(_) =>
    case BlockHash(_) =>
  }

  /** A read fails exactly with the error of the first question that fails: of a slot of an uncached account the
      account is asked first, and the slot only if the account exists. */
  lemma ReadFailsExactly(s: State, w: World, f: Faults, q: Query, e: DbError)
    ensures Read(s, w, f, q).1 == Err(e) <==>
            if Local(s.cur, q) then false
            else if q.Slot? && q.account !in s.cur.accounts then
              f(Basic(q.account)) == Some(e) || (f(Basic(q.account)).None? && w.info(q.account).Some? && f(q) == Some(e))
            else f(q) == Some(e)
    ensures Read(s, w, f, q).1.Err? ==> Read(s, w, f, q).0 == s
  {
  }

  /** A new database answers two questions by itself, that for the code of the empty code's hash and that for the
      code of the zero hash, with the empty code; its checkpoint answers none. */
  lemma NewDatabaseKnows(w: World, f: Faults, q: Query)
    ensures Local(NEW_STATE.cur, q) <==> q == Code(KECCAK_EMPTY) || q == Code(0)
    ensures Local(NEW_STATE.cur, q) ==> Read(NEW_STATE, w, f, q) == (NEW_STATE, Ok(CodeIs([])))
    ensures !Local(NEW_STATE.orig, q)
  {
  }

  // ---- one layer over two backends ----

  /** Two backends agree on the questions the layer does not answer by itself. */
  ghost predicate AgreeOutside(l: Layer, v: World, w: World) {
    forall q: Query :: !Local(l, q) ==> v.Get(q) == w.Get(q)
  }

  lemma AgreeingBackendsAreSame(l: Layer, v: World, w: World)
    ensures AgreeOutside(l, v, w) <==> Same(View(l, v), View(l, w))
  {
    if AgreeOutside(l, v, w) {
      forall q: Query ensures View(l, v).Get(q) == View(l, w).Get(q) {
        assert !Local(l, q) ==> v.Get(q) == w.Get(q);
      }
      SameIsSameAnswers(View(l, v), View(l, w));
    }
    if Same(View(l, v), View(l, w)) {
      SameIsSameAnswers(View(l, v), View(l, w));
      forall q: Query | !Local(l, q) ensures v.Get(q) == w.Get(q) {
        assert View(l, v).Get(q) == v.Get(q) && View(l, w).Get(q) == w.Get(q);
      }
    }
  }

  lemma SameIsSameAnswers(v: World, w: World)
    ensures Same(v, w) <==> forall q: Query :: v.Get(q) == w.Get(q)
  {
    if forall q: Query :: v.Get(q) == w.Get(q) {
      forall a: Address ensures v.info(a) == w.info(a) {
        assert v.Get(Basic(a)) == w.Get(Basic(a));
      }
      forall a: Address, i: U256 ensures v.slot(a, i) == w.slot(a, i) {
        assert v.Get(Slot(a, i)) == w.Get(Slot(a, i));
      }
      forall h: B256 ensures v.code(h) == w.code(h) {
        assert v.Get(Code(h)) == w.Get(Code(h));
      }
      forall n: U64 ensures v.blockHash(n) == w.blockHash(n) {
        assert v.Get(BlockHash(n)) == w.Get(BlockHash(n));
      }
    }
  }
}
