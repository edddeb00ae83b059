/** Snapshots of a warm cache into memory, and quoting on copies of a snapshot in parallel. A cache over a
    backing database is a layer here; it has no checkpoint. */
module Snapshot {
  import opened Types
  import opened Layers
  import opened Transitions

  datatype InMemoryDB = InMemoryDB(accounts: map<Address, AccountInfo>, storage: map<(Address, U256), U256>)

  /** Every cached info and slot; the account states are dropped. */
  function SnapshotOf(src: Layer): InMemoryDB {
    InMemoryDB(map a | a in src.accounts :: src.accounts[a].info,
               map a, i | a in src.accounts && i in src.accounts[a].storage :: (a, i) := src.accounts[a].storage[i])
  }

  /** The slots of the accounts `done`, and no others. */
  ghost predicate Copied(src: Layer, done: set<Address>, storage: map<(Address, U256), U256>) {
    && (forall k <- storage :: k.0 in src.accounts && k.0 in done && k.1 in src.accounts[k.0].storage
                               && storage[k] == src.accounts[k.0].storage[k.1])
    && (forall a, i :: a in src.accounts && a in done && i in src.accounts[a].storage ==> (a, i) in storage)
  }

  method FromCacheDb(src: Layer) returns (mem: InMemoryDB)
    ensures mem == SnapshotOf(src)
    ensures mem.accounts.Keys == src.accounts.Keys && forall a <- src.accounts :: mem.accounts[a] == src.accounts[a].info
    ensures forall a: Address, i: U256 ::
              && ((a, i) in mem.storage <==> a in src.accounts && i in src.accounts[a].storage)
              && ((a, i) in mem.storage ==> mem.storage[(a, i)] == src.accounts[a].storage[i])
  {
    mem := InMemoryDB(map[], map[]);
    var rest := src.accounts.Keys;
    while rest != {}
      invariant rest <= src.accounts.Keys
      invariant mem.accounts == map a | a in src.accounts && a !in rest :: src.accounts[a].info
      invariant Copied(src, src.accounts.Keys - rest, mem.storage)
      decreases rest
    {
      var addr :| addr in rest;
      mem := mem.(accounts := mem.accounts[addr := src.accounts[addr].info]);
      var storage := CopySlots(src, src.accounts.Keys - rest, mem.storage, addr);
      mem := mem.(storage := storage);
      rest := rest - {addr};
      assert src.accounts.Keys - rest == src.accounts.Keys - (rest + {addr}) + {addr};
    }
    assert mem.accounts == SnapshotOf(src).accounts;
    CopiedIsSnapshot(src, mem.storage);
  }

  lemma CopiedIsSnapshot(src: Layer, storage: map<(Address, U256), U256>)
    requires Copied(src, src.accounts.Keys, storage)
    ensures storage == SnapshotOf(src).storage
  {
    var snapshot := SnapshotOf(src).storage;
    forall k | k in storage ensures k in snapshot && snapshot[k] == storage[k] {
      assert k == (k.0, k.1);
    }
    forall k | k in snapshot ensures k in storage {
      assert k == (k.0, k.1);
    }
  }

  /** The inner loop: the slots of one account. */
  method CopySlots(src: Layer, ghost done: set<Address>, storage: map<(Address, U256), U256>, addr: Address)
    returns (storage': map<(Address, U256), U256>)
    requires Copied(src, done, storage) && addr in src.accounts && addr !in done
    ensures Copied(src, done + {addr}, storage')
  {
    storage' := storage;
    var slots := src.accounts[addr].storage;
    var rest := slots.Keys;
    while rest != {}
      invariant rest <= slots.Keys
      invariant forall k <- storage :: k in storage' && storage'[k] == storage[k]
      invariant forall k <- storage' :: k in storage || (k.0 == addr && k.1 in slots && storage'[k] == slots[k.1])
      invariant forall i <- slots.Keys - rest :: (addr, i) in storage'
      decreases rest
    {
      var slot :| slot in rest;
      storage' := storage'[(addr, slot) := slots[slot]];
      rest := rest - {slot};
    }
  }

  /** The code under `h` found by scanning the accounts. */
  ghost predicate Carries(mem: InMemoryDB, hash: Hasher, h: B256, c: Bytecode) {
    exists a <- mem.accounts :: mem.accounts[a].code == Some(c) && hash(c) == h
  }

  /** No two different pieces of code in the snapshot have one hash. */
  ghost predicate CollisionFree(mem: InMemoryDB, hash: Hasher) {
    forall h: B256, c: Bytecode, d: Bytecode :: Carries(mem, hash, h, c) && Carries(mem, hash, h, d) ==> c == d
  }

  ghost function ScanCode(mem: InMemoryDB, hash: Hasher, h: B256): (code: Bytecode)
    ensures Carries(mem, hash, h, code) || (code == [] && forall c: Bytecode :: !Carries(mem, hash, h, c))
  {
    if exists c :: Carries(mem, hash, h, c) then var c :| Carries(mem, hash, h, c); c else []
  }

  /** Scan the accounts in any order; the first code with the hash is the answer. */
  method CodeByHash(mem: InMemoryDB, hash: Hasher, h: B256) returns (code: Bytecode)
    ensures Carries(mem, hash, h, code) || (code == [] && forall c: Bytecode :: !Carries(mem, hash, h, c))
    ensures CollisionFree(mem, hash) ==> code == ScanCode(mem, hash, h)
  {
    var rest := mem.accounts.Keys;
    while rest != {}
      invariant rest <= mem.accounts.Keys
      invariant forall a <- mem.accounts.Keys - rest, c: Bytecode :: mem.accounts[a].code == Some(c) ==> hash(c) != h
      decreases rest
    {
      var a :| a in rest;
      var info := mem.accounts[a];
      if info.code.Some? && hash(info.code.value) == h {
        assert Carries(mem, hash, h, info.code.value);
        return info.code.value;
      }
      rest := rest - {a};
    }
    return [];
  }

  /** What a reader of the snapshot sees; a block hash is always zero. */
  ghost function MemWorld(mem: InMemoryDB, hash: Hasher): World {
    World((a: Address) => if a in mem.accounts then Some(mem.accounts[a]) else None,
          (a: Address, i: U256) => if (a, i) in mem.storage then mem.storage[(a, i)] else 0,
          (h: B256) => ScanCode(mem, hash, h),
          (n: U64) => 0)
  }

  // ---- how far the snapshot agrees with the cache ----

  /** The scan answers `c` for `h`: some account carries it, or it is the empty code and none carries any. */
  ghost predicate Scans(mem: InMemoryDB, hash: Hasher, h: B256, c: Bytecode) {
    Carries(mem, hash, h, c) || (c == [] && forall d: Bytecode :: !Carries(mem, hash, h, d))
  }

  /** The snapshot agrees with the cache over `w` on a question. */
  ghost predicate Agrees(src: Layer, w: World, hash: Hasher, q: Query) {
    match q
    case Basic(a) => if a in src.accounts then !src.accounts[a].status.NotExisting? else w.info(a).None?
    case Slot(a, i) => Local(src, q) || w.slot(a, i) == 0
    case Code(h) => Scans(SnapshotOf(src), hash, h, if h in src.contracts then src.contracts[h] else w.code(h))
    case BlockHash(n) => (if n in src.blockHashes then src.blockHashes[n] else w.blockHash(n)) == 0
  }

  /** Exactly: infos of accounts that exist or that neither side knows; slots the cache answers by itself or
      that are 0 in the backing database; code the scan finds, or empty code where it finds none; and block
      hashes that are zero. */
  lemma SnapshotAgreesExactly(src: Layer, w: World, hash: Hasher, q: Query)
    requires CollisionFree(SnapshotOf(src), hash)
    ensures MemWorld(SnapshotOf(src), hash).Get(q) == View(src, w).Get(q) <==> Agrees(src, w, hash, q)
  {
    var mem := SnapshotOf(src);
    match q
    case Basic(_) =>
    case Slot(a, i) => assert (a, i) in mem.storage <==> a in src.accounts && i in src.accounts[a].storage;
    case Code(h) => ScanIsExact(mem, hash, h, CodeAt(src, w, h));
    case BlockHash(_) =>
  }

  lemma ScanIsExact(mem: InMemoryDB, hash: Hasher, h: B256, c: Bytecode)
    requires CollisionFree(mem, hash)
    ensures ScanCode(mem, hash, h) == c <==> Scans(mem, hash, h, c)
  {
  }

  /** A question the cache answers by itself and the snapshot alike. */
  ghost predicate Hot(src: Layer, hash: Hasher, q: Query) {
    && Local(src, q)
    && match q
       case Basic(a) => !src.accounts[a].status.NotExisting?
       case Slot(_, _) => true
       case Code(h) => Scans(SnapshotOf(src), hash, h, src.contracts[h])
       case BlockHash(n) => src.blockHashes[n] == 0
  }

  /** Of the questions the cache answers by itself, the hot ones are exactly those answered alike. */
  lemma HotAnswers(src: Layer, w: World, hash: Hasher, q: Query)
    requires Local(src, q) && CollisionFree(SnapshotOf(src), hash)
    ensures LocalAnswer(src, q) == View(src, w).Get(q)
    ensures MemWorld(SnapshotOf(src), hash).Get(q) == LocalAnswer(src, q) <==> Hot(src, hash, q)
  {
    SnapshotAgreesExactly(src, w, hash, q);
    assert LocalAnswer(src, q) == View(src, w).Get(q);
    assert Agrees(src, w, hash, q) <==> Hot(src, hash, q);
  }

  // ---- the other converter ----

  /** The empty backing database; its block hashes are some function of the number. */
  function EmptyWorld(blockHash: U64 -> B256): World {
    World((a: Address) => None, (a: Address, i: U256) => 0, (h: B256) => [], blockHash)
  }

  /** Every account with its info normalised and its slots, in no particular state. */
  ghost predicate Converted(accounts: map<Address, DbAccount>, hash: Hasher, accounts': map<Address, DbAccount>) {
    && accounts'.Keys == accounts.Keys
    && forall a <- accounts :: accounts'[a] == DbAccount(Normalised(accounts[a].info, hash), Untouched, accounts[a].storage)
  }

  /** Copy infos and slots into a cache over the empty database, through its insert operations. */
  method ConvertCacheToEmptyDb(src: Layer, hash: Hasher) returns (l: Layer)
    ensures Converted(src.accounts, hash, l.accounts) && CodeCollected(src.accounts, hash, l.contracts)
    ensures l.blockHashes == map[]
  {
    l := NEW_STATE.cur;
    var rest := src.accounts.Keys;
    ghost var done: map<Address, DbAccount> := map[];
    while rest != {}
      invariant rest <= src.accounts.Keys && done.Keys == src.accounts.Keys - rest
      invariant forall a <- done :: done[a] == src.accounts[a]
      invariant Converted(done, hash, l.accounts) && CodeCollected(done, hash, l.contracts)
      invariant l.blockHashes == map[]
      decreases rest
    {
      var addr :| addr in rest;
      var account := src.accounts[addr];
      CollectOne(done, hash, l.contracts, addr, account);
      l := InsertInfo(l, addr, account.info, hash);
      l := InsertSlots(l, addr, account.storage);
      done := done[addr := account];
      rest := rest - {addr};
    }
    assert done == src.accounts;
  }

  /** The inner loop: insert the slots of an account that is there and has none. */
  method InsertSlots(l: Layer, addr: Address, slots: map<U256, U256>) returns (l': Layer)
    requires addr in l.accounts && l.accounts[addr].storage == map[]
    ensures l' == l.(accounts := l.accounts[addr := l.accounts[addr].(storage := slots)])
  {
    l' := l;
    var account := l.accounts[addr];
    var rest := slots.Keys;
    ghost var done: map<U256, U256> := map[];
    assert l.accounts == l.accounts[addr := account];
    while rest != {}
      invariant rest <= slots.Keys && done.Keys == slots.Keys - rest
      invariant forall i <- done :: done[i] == slots[i]
      invariant l' == l.(accounts := l.accounts[addr := account.(storage := done)])
      decreases rest
    {
      var slot :| slot in rest;
      done := done[slot := slots[slot]];
      l' := l'.(accounts := l'.accounts[addr := AddSlot(l'.accounts[addr], slot, slots[slot])]);
      assert l'.accounts == l.accounts[addr := account.(storage := done)];
      rest := rest - {slot};
    }
    assert done == slots;
  }

  /** The code of the accounts, on top of the two hashes every cache knows. */
  ghost predicate CodeCollected(accounts: map<Address, DbAccount>, hash: Hasher, contracts: map<B256, Bytecode>) {
    && (forall h <- NEW_STATE.cur.contracts :: h in contracts && contracts[h] == [])
    && (forall h <- contracts :: h in NEW_STATE.cur.contracts ||
          exists a <- accounts :: CodeOf(accounts[a].info, hash) == Some((h, contracts[h])))
    && (forall a <- accounts :: CodeOf(accounts[a].info, hash).Some? ==> CodeOf(accounts[a].info, hash).value.0 in contracts)
  }

  lemma CollectOne(accounts: map<Address, DbAccount>, hash: Hasher, contracts: map<B256, Bytecode>, a: Address,
                   acc: DbAccount)
    requires CodeCollected(accounts, hash, contracts) && a !in accounts
    ensures CodeCollected(accounts[a := acc], hash, InsertContract(contracts, acc.info, hash))
  {
    var more, contracts' := accounts[a := acc], InsertContract(contracts, acc.info, hash);
    forall h | h in contracts' && h !in NEW_STATE.cur.contracts
      ensures exists b <- more :: CodeOf(more[b].info, hash) == Some((h, contracts'[h]))
    {
      if h in contracts {
        var b :| b in accounts && CodeOf(accounts[b].info, hash) == Some((h, contracts[h]));
        assert CodeOf(more[b].info, hash) == Some((h, contracts'[h]));
      } else {
        assert CodeOf(more[a].info, hash) == Some((h, contracts'[h]));
      }
    }
  }

  /** Infos say the hash of their code, and hashing is as expected of the empty code and of no other. */
  ghost predicate Honest(src: Layer, hash: Hasher) {
    && hash([]) == KECCAK_EMPTY
    && forall a <- src.accounts ::
         CodeOf(src.accounts[a].info, hash).Some? ==>
           && CodeOf(src.accounts[a].info, hash).value.0 == hash(src.accounts[a].info.code.value)
           && hash(src.accounts[a].info.code.value) !in NEW_STATE.cur.contracts
  }

  /** The two converters agree on every slot, and on every info up to the normalisation of its code hash. */
  lemma ConvertersAgree(src: Layer, l: Layer, hash: Hasher, blockHash: U64 -> B256)
    requires Converted(src.accounts, hash, l.accounts)
    ensures var m, w := MemWorld(SnapshotOf(src), hash), EmptyWorld(blockHash);
            && (forall a: Address, i: U256 :: SlotAt(l, w, a, i) == m.slot(a, i))
            && (forall a: Address :: InfoAt(l, w, a)
                  == match m.info(a) case Some(info) => Some(Normalised(info, hash)) case None => None)
  {
    var mem, w := SnapshotOf(src), EmptyWorld(blockHash);
    forall a: Address, i: U256 ensures SlotAt(l, w, a, i) == MemWorld(mem, hash).slot(a, i) {
      assert (a, i) in mem.storage <==> a in src.accounts && i in src.accounts[a].storage;
    }
  }

  /** They agree on the code of every hash if the infos are honest and hashes do not collide. */
  lemma {:induction false} ConvertersAgreeOnCode(src: Layer, l: Layer, hash: Hasher, blockHash: U64 -> B256, h: B256)
    requires CodeCollected(src.accounts, hash, l.contracts)
    ensures Honest(src, hash) && CollisionFree(SnapshotOf(src), hash) ==>
              CodeAt(l, EmptyWorld(blockHash), h) == MemWorld(SnapshotOf(src), hash).code(h)
  {
    if Honest(src, hash) && CollisionFree(SnapshotOf(src), hash) {
      var w := EmptyWorld(blockHash);
      var c := ScanCode(SnapshotOf(src), hash, h);
      if Carries(SnapshotOf(src), hash, h, c) {
        CarriedCode(src, l, hash, w, h, c);
      } else {
        UncarriedCode(src, l, hash, w, h);
      }
    }
  }

  lemma UncarriedCode(src: Layer, l: Layer, hash: Hasher, w: World, h: B256)
    requires CodeCollected(src.accounts, hash, l.contracts) && Honest(src, hash) && w.code(h) == []
    requires h in l.contracts ==> !Carries(SnapshotOf(src), hash, h, l.contracts[h])
    ensures CodeAt(l, w, h) == []
  {
    if h in l.contracts && h !in NEW_STATE.cur.contracts {
      CollectedIsCarried(src, l, hash, h);
    }
  }

  /** Code that was collected is found by the scan. */
  lemma CollectedIsCarried(src: Layer, l: Layer, hash: Hasher, h: B256)
    requires CodeCollected(src.accounts, hash, l.contracts) && Honest(src, hash)
    requires h in l.contracts && h !in NEW_STATE.cur.contracts
    ensures Carries(SnapshotOf(src), hash, h, l.contracts[h])
  {
    var mem := SnapshotOf(src);
    var b :| b in src.accounts && CodeOf(src.accounts[b].info, hash) == Some((h, l.contracts[h]));
    assert mem.accounts[b].code == Some(l.contracts[h]) && hash(l.contracts[h]) == h;
  }

  /** Code that the scan finds was collected. */
  lemma CarriedCode(src: Layer, l: Layer, hash: Hasher, w: World, h: B256, c: Bytecode)
    requires CodeCollected(src.accounts, hash, l.contracts) && w.code(h) == []
    requires Honest(src, hash) && CollisionFree(SnapshotOf(src), hash)
    requires Carries(SnapshotOf(src), hash, h, c)
    ensures CodeAt(l, w, h) == c
  {
    var mem := SnapshotOf(src);
    var a :| a in mem.accounts && mem.accounts[a].code == Some(c) && hash(c) == h;
    assert src.accounts[a].info == mem.accounts[a];
    if c != [] {
      assert CodeOf(src.accounts[a].info, hash) == Some((h, c));
      CollectedIsCarried(src, l, hash, h);
    }
  }
}
