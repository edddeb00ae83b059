/** The uncached reference: each operation as a change of a total database, and exactly when the cache
    implements it. */
module Overlay {
  import opened Types
  import opened Layers
  import opened Transitions
  import opened Reads
  import opened Commits

  datatype Op =
    | Ask(query: Query)
    | PutInfo(address: Address, info: AccountInfo)
    | PutSlot(account: Address, index: U256, value: U256)
    | PutStorage(owner: Address, storage: map<U256, U256>)
    | CommitBatch(changes: Changes, order: seq<Address>)
    | Sync

  /** A batch comes with an iteration order. */
  ghost predicate WellFormed(op: Op) {
    op.CommitBatch? ==> Enumerates(op.order, op.changes.Keys)
  }

  /** No two changes of a batch disagree on the code of a hash, so what it stores has one meaning. */
  ghost predicate OneCodePerHash(op: Op, hash: Hasher) {
    op.CommitBatch? ==> NoCodeConflict(map[], op.changes, hash)
  }

  /** An operation on the cache. Only `Ask` has an answer. */
  function Step(s: State, w: World, hash: Hasher, f: Faults, op: Op): (State, Outcome<Option<Answer>>)
    requires op.CommitBatch? ==> forall a <- op.order :: a in op.changes
  {
    match op
    case Ask(q) =>
      var (s', r) := Read(s, w, f, q);
      (s', match r case Ok(answer) => Ok(Some(answer)) case Err(e) => Err(e) case Panic => Panic)
    case PutInfo(a, info) => (s.(cur := InsertInfo(s.cur, a, info, hash)), Ok(None))
    case PutSlot(a, i, v) =>
      var (s', r) := InsertSlot(s, w, f, a, i, v);
      (s', match r case Ok(_) => Ok(None) case Err(e) => Err(e) case Panic => Panic)
    case PutStorage(a, storage) =>
      var (s', r) := ReplaceStorage(s, w, f, a, storage);
      (s', match r case Ok(_) => Ok(None) case Err(e) => Err(e) case Panic => Panic)
    case CommitBatch(changes, order) => (s.(cur := CommitInOrder(s.cur, changes, order, hash)), Ok(None))
    case Sync => (SyncOriginals(s), Ok(None))
  }

  // ---- the uncached meaning ----

  ghost function InfoAfter(o: World, op: Op, hash: Hasher, a: Address): Option<AccountInfo> {
    match op
    case PutInfo(b, info) => if a == b then Some(Normalised(info, hash)) else o.info(a)
    case PutStorage(b, _) => if a == b && o.info(a).None? then Some(DEFAULT_INFO) else o.info(a)
    case CommitBatch(changes, _) =>
      if !TouchedBy(changes, a) then o.info(a)
      else if changes[a].selfDestructed then None
      else Some(Normalised(changes[a].info, hash))
    case _ => o.info(a)
  }

  ghost function SlotAfter(o: World, op: Op, a: Address, i: U256): U256 {
    match op
    case PutSlot(b, j, v) => if a == b && i == j then v else o.slot(a, i)
    case PutStorage(b, storage) => if a != b then o.slot(a, i) else if i in storage then storage[i] else 0
    case CommitBatch(changes, _) =>
      if !TouchedBy(changes, a) then o.slot(a, i)
      else if changes[a].selfDestructed then 0
      else if i in changes[a].storage then changes[a].storage[i].present
      else if changes[a].created then 0
      else o.slot(a, i)
    case _ => o.slot(a, i)
  }

  /** The code an operation stores under a hash. */
  ghost predicate Stores(op: Op, hash: Hasher, h: B256, c: Bytecode) {
    match op
    case PutInfo(_, info) => CodeOf(info, hash) == Some((h, c))
    case CommitBatch(changes, _) => Writes(changes, hash, h, c)
    case _ => false
  }

  ghost function CodeAfter(o: World, op: Op, hash: Hasher, h: B256): Bytecode {
    if exists c :: Stores(op, hash, h, c) then var c :| Stores(op, hash, h, c); c else o.code(h)
  }

  /** The database after an operation, when nothing is cached and every slot has a value. */
  ghost function Effect(o: World, op: Op, hash: Hasher): World {
    World((a: Address) => InfoAfter(o, op, hash, a),
          (a: Address, i: U256) => SlotAfter(o, op, a, i),
          (h: B256) => CodeAfter(o, op, hash, h),
          o.blockHash)
  }

  // ---- when the cache implements it ----

  /** Accounts that do not exist carry no hidden info. */
  ghost predicate Tidy(l: Layer) {
    forall a <- l.accounts :: l.accounts[a].status.NotExisting? ==> l.accounts[a].info == DEFAULT_INFO
  }

  /** No code the operation stores meets different code already known under its hash. */
  ghost predicate CodeFits(l: Layer, op: Op, hash: Hasher) {
    forall h: B256, c: Bytecode :: Stores(op, hash, h, c) && h in l.contracts ==> l.contracts[h] == c
  }

  /** A plain change of an account known not to exist finds no backend storage to bring back. */
  predicate RevivesNothing(l: Layer, w: World, changes: Changes, a: Address, i: U256) {
    a in changes && Plain(changes[a]) && a in l.accounts && l.accounts[a].status.NotExisting?
    && i !in l.accounts[a].storage && i !in changes[a].storage
    ==> w.slot(a, i) == 0
  }

  /** A write keeps its meaning. */
  ghost predicate WritesFaithfully(l: Layer, w: World, op: Op, hash: Hasher) {
    && (op.PutInfo? && op.address in l.accounts ==> !l.accounts[op.address].status.NotExisting?)
    && (op.CommitBatch? ==> forall a: Address, i: U256 :: RevivesNothing(l, w, op.changes, a, i))
    && CodeFits(l, op, hash)
  }

  /** So does a read whose `unwrap` does not fail. */
  ghost predicate Faithful(s: State, w: World, hash: Hasher, f: Faults, op: Op) {
    WritesFaithfully(s.cur, w, op, hash) && (op.Ask? ==> !UnwrapFails(s, f, op.query))
  }

  /** What an operation does to the cache is what it means: it does not panic, a fault leaves everything as it
      was, and otherwise it answers from the view and changes the view as `Effect` says. */
  ghost predicate Implements(s: State, w: World, hash: Hasher, f: Faults, op: Op)
    requires op.CommitBatch? ==> forall a <- op.order :: a in op.changes
  {
    var (s', r) := Step(s, w, hash, f, op);
    match r
    case Ok(answer) =>
      && (op.Ask? ==> answer == Some(View(s.cur, w).Get(op.query)))
      && Same(View(s'.cur, w), Effect(View(s.cur, w), op, hash))
    case Err(_) => s' == s
    case Panic => false
  }

  lemma CommitInfo(l: Layer, w: World, changes: Changes, order: seq<Address>, hash: Hasher, a: Address)
    requires Enumerates(order, changes.Keys)
    ensures InfoAt(CommitInOrder(l, changes, order, hash), w, a)
            == InfoAfter(View(l, w), CommitBatch(changes, order), hash, a)
  {
    CommitMeaning(l, changes, order, hash);
  }

  lemma CommitSlot(l: Layer, w: World, changes: Changes, order: seq<Address>, hash: Hasher, a: Address, i: U256)
    requires Enumerates(order, changes.Keys)
    ensures SlotAt(CommitInOrder(l, changes, order, hash), w, a, i)
              == SlotAfter(View(l, w), CommitBatch(changes, order), a, i)
            <==> RevivesNothing(l, w, changes, a, i)
  {
    CommitMeaning(l, changes, order, hash);
  }

  lemma StoredIsUnique(op: Op, hash: Hasher, h: B256, c: Bytecode, d: Bytecode)
    requires OneCodePerHash(op, hash) && Stores(op, hash, h, c) && Stores(op, hash, h, d)
    ensures c == d
  {
  }

  /** The contracts after an operation: known code stays, stored code is known. */
  lemma StepContracts(s: State, w: World, hash: Hasher, f: Faults, op: Op, h: B256)
    requires WellFormed(op) && !op.Ask?
    ensures var l, l' := s.cur, Step(s, w, hash, f, op).0.cur;
            && (h in l.contracts ==> h in l'.contracts && l'.contracts[h] == l.contracts[h])
            && (h !in l.contracts && h in l'.contracts ==> Stores(op, hash, h, l'.contracts[h]))
            && (forall c :: Stores(op, hash, h, c) ==> h in l'.contracts)
  {
    if op.CommitBatch? {
      CommitMeaning(s.cur, op.changes, op.order, hash);
    }
  }

  lemma StepCode(s: State, w: World, hash: Hasher, f: Faults, op: Op, h: B256)
    requires WellFormed(op) && OneCodePerHash(op, hash) && !op.Ask?
    ensures CodeAt(Step(s, w, hash, f, op).0.cur, w, h) == CodeAfter(View(s.cur, w), op, hash, h)
            <==> forall c: Bytecode :: Stores(op, hash, h, c) && h in s.cur.contracts ==> s.cur.contracts[h] == c
  {
    StepContracts(s, w, hash, f, op, h);
    forall c: Bytecode | Stores(op, hash, h, c) ensures CodeAfter(View(s.cur, w), op, hash, h) == c {
      var d :| Stores(op, hash, h, d) && CodeAfter(View(s.cur, w), op, hash, h) == d;
      StoredIsUnique(op, hash, h, c, d);
    }
  }

  /** Pointwise agreement of a layer with the meaning of an operation. */
  ghost predicate Agrees(l': Layer, l: Layer, w: World, op: Op, hash: Hasher) {
    && (forall a: Address :: InfoAt(l', w, a) == InfoAfter(View(l, w), op, hash, a))
    && (forall a: Address, i: U256 :: SlotAt(l', w, a, i) == SlotAfter(View(l, w), op, a, i))
    && (forall h: B256 :: CodeAt(l', w, h) == CodeAfter(View(l, w), op, hash, h))
    && (forall n: U64 :: BlockHashAt(l', w, n) == BlockHashAt(l, w, n))
  }

  lemma AgreesIsSame(l': Layer, l: Layer, w: World, op: Op, hash: Hasher)
    ensures Agrees(l', l, w, op, hash) <==> Same(View(l', w), Effect(View(l, w), op, hash))
  {
    var v, o := View(l', w), Effect(View(l, w), op, hash);
    assert forall a: Address :: v.info(a) == InfoAt(l', w, a) && o.info(a) == InfoAfter(View(l, w), op, hash, a);
    assert forall a: Address, i: U256 :: v.slot(a, i) == SlotAt(l', w, a, i) && o.slot(a, i) == SlotAfter(View(l, w), op, a, i);
    assert forall h: B256 :: v.code(h) == CodeAt(l', w, h) && o.code(h) == CodeAfter(View(l, w), op, hash, h);
    assert forall n: U64 :: v.blockHash(n) == BlockHashAt(l', w, n) && o.blockHash(n) == BlockHashAt(l, w, n);
  }

  /** The accounts part of a commit agrees exactly if it revives nothing. */
  lemma CommitSlotsAreExact(l: Layer, w: World, changes: Changes, order: seq<Address>, hash: Hasher)
    requires Enumerates(order, changes.Keys)
    ensures var l', op := CommitInOrder(l, changes, order, hash), CommitBatch(changes, order);
            && (forall a: Address :: InfoAt(l', w, a) == InfoAfter(View(l, w), op, hash, a))
            && ((forall a: Address, i: U256 :: SlotAt(l', w, a, i) == SlotAfter(View(l, w), op, a, i))
                <==> forall a: Address, i: U256 :: RevivesNothing(l, w, changes, a, i))
  {
    var l', op := CommitInOrder(l, changes, order, hash), CommitBatch(changes, order);
    forall a: Address ensures InfoAt(l', w, a) == InfoAfter(View(l, w), op, hash, a) {
      CommitInfo(l, w, changes, order, hash, a);
    }
    forall a: Address, i: U256
      ensures SlotAt(l', w, a, i) == SlotAfter(View(l, w), op, a, i) <==> RevivesNothing(l, w, changes, a, i)
    {
      CommitSlot(l, w, changes, order, hash, a, i);
    }
  }

  /** The code part of any operation agrees exactly if the code fits. */
  lemma CodeIsExact(s: State, w: World, hash: Hasher, f: Faults, op: Op)
    requires WellFormed(op) && OneCodePerHash(op, hash) && !op.Ask?
    ensures (forall h: B256 :: CodeAt(Step(s, w, hash, f, op).0.cur, w, h) == CodeAfter(View(s.cur, w), op, hash, h))
            <==> CodeFits(s.cur, op, hash)
  {
    var l' := Step(s, w, hash, f, op).0.cur;
    forall h: B256
      ensures CodeAt(l', w, h) == CodeAfter(View(s.cur, w), op, hash, h)
              <==> forall c: Bytecode :: Stores(op, hash, h, c) && h in s.cur.contracts ==> s.cur.contracts[h] == c
    {
      StepCode(s, w, hash, f, op, h);
    }
  }

  lemma CommitIsExact(s: State, w: World, hash: Hasher, f: Faults, op: Op)
    requires op.CommitBatch? && WellFormed(op) && OneCodePerHash(op, hash)
    ensures Agrees(Step(s, w, hash, f, op).0.cur, s.cur, w, op, hash) <==> WritesFaithfully(s.cur, w, op, hash)
  {
    CodeIsExact(s, w, hash, f, op);
    CommitSlotsAreExact(s.cur, w, op.changes, op.order, hash);
    CommitMeaning(s.cur, op.changes, op.order, hash);
  }

  lemma PutInfoIsExact(s: State, w: World, hash: Hasher, f: Faults, op: Op)
    requires op.PutInfo?
    ensures Agrees(Step(s, w, hash, f, op).0.cur, s.cur, w, op, hash) <==> WritesFaithfully(s.cur, w, op, hash)
  {
    var l' := Step(s, w, hash, f, op).0.cur;
    CodeIsExact(s, w, hash, f, op);
    assert forall a: Address, i: U256 :: SlotAt(l', w, a, i) == SlotAfter(View(s.cur, w), op, a, i);
    assert InfoAt(l', w, op.address) == InfoAfter(View(s.cur, w), op, hash, op.address)
           <==> (op.address in s.cur.accounts ==> !s.cur.accounts[op.address].status.NotExisting?);
  }

  lemma PutSlotIsExact(s: State, w: World, hash: Hasher, f: Faults, op: Op)
    requires op.PutSlot? && AbsentIsZeroOutside(s.cur, w)
    requires Step(s, w, hash, f, op).1.Ok?
    ensures Agrees(Step(s, w, hash, f, op).0.cur, s.cur, w, op, hash)
  {
    var l' := Step(s, w, hash, f, op).0.cur;
    forall a: Address, i: U256 ensures SlotAt(l', w, a, i) == SlotAfter(View(s.cur, w), op, a, i) {
      if a == op.account && a !in s.cur.accounts {
        assert w.info(a).None? ==> w.slot(a, i) == 0;
      }
    }
  }

  lemma PutStorageIsExact(s: State, w: World, hash: Hasher, f: Faults, op: Op)
    requires op.PutStorage? && Tidy(s.cur)
    requires Step(s, w, hash, f, op).1.Ok?
    ensures Agrees(Step(s, w, hash, f, op).0.cur, s.cur, w, op, hash)
  {
  }

  /** An operation that does not succeed changes nothing, and only a read can panic. */
  lemma StepFailureChangesNothing(s: State, w: World, hash: Hasher, f: Faults, op: Op)
    requires WellFormed(op)
    ensures var (s', r) := Step(s, w, hash, f, op);
            && (!r.Ok? ==> s' == s)
            && (r.Panic? <==> op.Ask? && UnwrapFails(s, f, op.query))
            && ((forall q: Query :: f(q).None?) && !r.Panic? ==> r.Ok?)
  {
  }

  /** The cache implements an operation exactly if it is faithful. */
  lemma {:induction false} StepIsExact(s: State, w: World, hash: Hasher, f: Faults, op: Op)
    requires AbsentIsZeroOutside(s.cur, w) && Tidy(s.cur) && WellFormed(op) && OneCodePerHash(op, hash)
    ensures Implements(s, w, hash, f, op) <==> Faithful(s, w, hash, f, op)
  {
    var (s', r) := Step(s, w, hash, f, op);
    AgreesIsSame(s'.cur, s.cur, w, op, hash);
    match op
    case Ask(q) =>
      ReadKeepsView(s, w, f, q);
      ReadAnswersView(s, w, f, q);
      ReadPanicsExactly(s, w, f, q);
    case PutInfo(_, _) =>
      PutInfoIsExact(s, w, hash, f, op);
    case PutSlot(_, _, _) =>
      if r.Ok? {
        PutSlotIsExact(s, w, hash, f, op);
      }
    case PutStorage(_, _) =>
      if r.Ok? {
        PutStorageIsExact(s, w, hash, f, op);
      }
    case CommitBatch(_, _) =>
      CommitIsExact(s, w, hash, f, op);
    case Sync =>
  }

  // ---- code, and stacked databases ----

  /** Code put with an info is found under the stored hash exactly if its hash is not zero and no different
      code was there first; under a zero hash the stored hash is that of the empty code. */
  lemma StoredCodeIsFoundExactly(l: Layer, w: World, a: Address, info: AccountInfo, hash: Hasher)
    requires CodeOf(info, hash).Some?
    ensures var (h, c) := CodeOf(info, hash).value;
            var l' := InsertInfo(l, a, info, hash);
            CodeAt(l', w, l'.accounts[a].info.codeHash) == c <==>
              if h == 0 then CodeAt(l, w, KECCAK_EMPTY) == c
              else h in l.contracts ==> l.contracts[h] == c
  {
    assert KECCAK_EMPTY != 0;
  }

  /** Storing an info changes nothing but its code hash, which never stays zero. */
  lemma NormalisedMeaning(info: AccountInfo, hash: Hasher)
    ensures var info' := Normalised(info, hash);
            && info'.balance == info.balance && info'.nonce == info.nonce && info'.code == info.code
            && info'.codeHash != 0
            && (info'.codeHash != info.codeHash ==> info.codeHash == 0 || info.codeHash == KECCAK_EMPTY)
            && (CodeOf(info, hash).None? ==> info'.codeHash == if info.codeHash == 0 then KECCAK_EMPTY else info.codeHash)
  {
    assert KECCAK_EMPTY != 0;
  }

  /** Storing an info that was stored before changes nothing, except for code put under a zero hash: its hash
      is lost at first and computed the second time. */
  lemma NormalisingTwiceExactly(info: AccountInfo, hash: Hasher)
    ensures Normalised(Normalised(info, hash), hash) == Normalised(info, hash) <==>
            !(info.codeHash == 0 && info.code.Some? && info.code.value != []
              && hash(info.code.value) != 0 && hash(info.code.value) != KECCAK_EMPTY)
  {
    assert KECCAK_EMPTY != 0;
  }

  /** A database used as the backend of another meets the zero-storage assumption exactly if the accounts it
      holds as non-existing have no slot set. */
  lemma StackedAbsentIsZeroExactly(l: Layer, w: World)
    ensures AbsentIsZero(View(l, w)) <==>
            && AbsentIsZeroOutside(l, w)
            && forall a <- l.accounts, i <- l.accounts[a].storage ::
                 l.accounts[a].status.NotExisting? ==> l.accounts[a].storage[i] == 0
  {
    var v := View(l, w);
    forall a: Address, i: U256
      ensures (v.info(a).None? ==> v.slot(a, i) == 0) <==>
              if a in l.accounts then
                l.accounts[a].status.NotExisting? && i in l.accounts[a].storage ==> l.accounts[a].storage[i] == 0
              else w.info(a).None? ==> w.slot(a, i) == 0
    {
    }
    if AbsentIsZero(v) {
      forall a: Address, i: U256 | a !in l.accounts && w.info(a).None? ensures w.slot(a, i) == 0 {
        assert v.info(a).None? ==> v.slot(a, i) == 0;
      }
      forall a, i | a in l.accounts && i in l.accounts[a].storage && l.accounts[a].status.NotExisting?
        ensures l.accounts[a].storage[i] == 0
      {
        assert v.info(a).None? ==> v.slot(a, i) == 0;
      }
    }
  }
}
