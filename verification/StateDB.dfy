/** The caching database as an object: its six maps are updated in place. Every method is proved
    against the operation of the same name on values. */
module StateDatabase {
  import opened Types
  import opened Layers
  import T = Transitions
  import P = Pools
  import C = Commits

  class StateDB {
    var accounts: map<Address, DbAccount>
    var contracts: map<B256, Bytecode>
    var blockHashes: map<U256, B256>
    var originalAccounts: map<Address, DbAccount>
    var originalContracts: map<B256, Bytecode>
    var originalBlockHashes: map<U256, B256>
    const db: World
    const hashSlow: Hasher

    function Current(): Layer
      reads this
    {
      Layer(accounts, contracts, blockHashes)
    }

    function Originals(): Layer
      reads this
    {
      Layer(originalAccounts, originalContracts, originalBlockHashes)
    }

    function Value(): T.State
      reads this
    {
      T.State(Current(), Originals())
    }

    constructor (db: World, hashSlow: Hasher)
      ensures Value() == T.NEW_STATE
      ensures forall q: Query :: Local(Current(), q) <==> q == Code(KECCAK_EMPTY) || q == Code(0)
      ensures contracts[KECCAK_EMPTY] == [] && contracts[0] == []
      ensures this.db == db && this.hashSlow == hashSlow
    {
      accounts, blockHashes := map[], map[];
      contracts := map[KECCAK_EMPTY := []][0 := []];
      originalAccounts, originalContracts, originalBlockHashes := map[], map[], map[];
      this.db, this.hashSlow := db, hashSlow;
    }

    /** A second database on the backing database `db`, from the checkpoint of this one. */
    constructor FromOriginals(source: StateDB, db: World)
      ensures Value() == T.Clone(source.Value())
      ensures Current() == source.Originals() && Originals() == source.Originals()
      ensures this.db == db && hashSlow == source.hashSlow
    {
      contracts := source.originalContracts;
      accounts := source.originalAccounts;
      blockHashes := source.originalBlockHashes;
      originalBlockHashes := source.originalBlockHashes;
      originalContracts := source.originalContracts;
      originalAccounts := source.originalAccounts;
      this.db, this.hashSlow := db, source.hashSlow;
    }

    method SyncOriginals()
      modifies this
      ensures Value() == T.SyncOriginals(old(Value()))
      ensures Current() == old(Current()) && Originals() == old(Current())
    {
      originalAccounts := accounts;
      originalContracts := contracts;
      originalBlockHashes := blockHashes;
    }

    method InsertContract(account: AccountInfo) returns (account': AccountInfo)
      modifies this`contracts
      ensures contracts == T.InsertContract(old(contracts), account, hashSlow)
      ensures account' == T.Normalised(account, hashSlow)
      ensures var carries := account.code.Some? && account.code.value != [];
              var h := if carries && account.codeHash == KECCAK_EMPTY then hashSlow(account.code.value)
                       else account.codeHash;
              && account' == account.(codeHash := if h == 0 then KECCAK_EMPTY else h)
              && contracts == if carries && h !in old(contracts) then old(contracts)[h := account.code.value]
                              else old(contracts)
    {
      account' := account;
      if account'.code.Some? {
        var code := account'.code.value;
        if code != [] {
          if account'.codeHash == KECCAK_EMPTY {
            account' := account'.(codeHash := hashSlow(code));
          }
          if account'.codeHash !in contracts {
            contracts := contracts[account'.codeHash := code];
          }
        }
      }
      if account'.codeHash == 0 {
        account' := account'.(codeHash := KECCAK_EMPTY);
      }
    }

    method InsertAccountInfo(address: Address, info: AccountInfo)
      modifies this`accounts, this`contracts
      ensures Current() == T.InsertInfo(old(Current()), address, info, hashSlow)
    {
      var info' := InsertContract(info);
      if address !in accounts {
        accounts := accounts[address := DEFAULT_ACCOUNT];
      }
      accounts := accounts[address := accounts[address].(info := info')];
    }

    method LoadAccount(address: Address, f: Faults) returns (r: Outcome<()>)
      modifies this`accounts, this`originalAccounts
      ensures (Value(), r) == T.LoadAccount(old(Value()), db, f, address)
      ensures if address in old(accounts) || f(Query.Basic(address)).Some? then
                accounts == old(accounts) && originalAccounts == old(originalAccounts)
              else
                var account := match db.info(address)
                  case Some(info) => DbAccount(info, Untouched, map[])
                  case None => DbAccount(AccountInfo(0, 0, KECCAK_EMPTY, Some([])), NotExisting, map[]);
                && accounts == old(accounts)[address := account]
                && originalAccounts == old(originalAccounts)[address := account]
    {
      if address in accounts {
        return Ok(());
      }
      match AskWorld(db, f, Query.Basic(address)) {
        case Err(e) => return Err(e);
        case Ok(answer) =>
          var account := match answer.info
            case Some(info) => DEFAULT_ACCOUNT.(info := info)
            case None => NOT_EXISTING_ACCOUNT;
          originalAccounts := originalAccounts[address := account];
          accounts := accounts[address := account];
          return Ok(());
      }
    }

    method InsertAccountStorage(address: Address, slot: U256, value: U256, f: Faults) returns (r: Outcome<()>)
      modifies this`accounts, this`originalAccounts
      ensures (Value(), r) == T.InsertSlot(old(Value()), db, f, address, slot, value)
    {
      r := LoadAccount(address, f);
      if r.Ok? {
        var account := accounts[address];
        accounts := accounts[address := account.(storage := account.storage[slot := value])];
      }
    }

    method ReplaceAccountStorage(address: Address, storage: map<U256, U256>, f: Faults) returns (r: Outcome<()>)
      modifies this`accounts, this`originalAccounts
      ensures (Value(), r) == T.ReplaceStorage(old(Value()), db, f, address, storage)
    {
      r := LoadAccount(address, f);
      if r.Ok? {
        var account := accounts[address].(status := StorageCleared);
        account := account.(storage := storage);
        accounts := accounts[address := account];
      }
    }

    /** The changes are visited in some order, which is returned; every order is possible. */
    method Commit(changes: Changes) returns (ghost order: seq<Address>)
      modifies this`accounts, this`contracts
      ensures T.Enumerates(order, changes.Keys)
      ensures Current() == T.CommitInOrder(old(Current()), changes, order, hashSlow)
      ensures C.AccountsCommitted(old(accounts), changes, hashSlow, accounts)
      ensures C.ContractsCommitted(old(contracts), changes, hashSlow, contracts)
      ensures forall a <- changes | changes[a].touched :: a in accounts && CommittedAt(old(accounts), changes[a], a, accounts[a])
    {
      order := [];
      var rest := changes.Keys;
      while rest != {}
        invariant rest <= changes.Keys
        invariant T.Enumerates(order, changes.Keys - rest)
        invariant Current() == T.CommitInOrder(old(Current()), changes, order, hashSlow)
        decreases rest
      {
        var address :| address in rest;
        var account := changes[address];
        ghost var before := Current();
        assert (order + [address])[..|order|] == order;
        order := order + [address];
        rest := rest - {address};
        if !account.touched {
          continue;
        }
        if account.selfDestructed {
          accounts := accounts[address := NOT_EXISTING_ACCOUNT];
          continue;
        }
        var info := InsertContract(account.info);
        var dbAccount := T.AccountOrDefault(accounts, address).(info := info);
        if account.created {
          dbAccount := dbAccount.(storage := map[], status := StorageCleared);
          assert map[] + T.Present(account) == T.Present(account);
        } else if dbAccount.status.StorageCleared? {
          dbAccount := dbAccount.(status := StorageCleared);
        } else {
          dbAccount := dbAccount.(status := Touched);
        }
        dbAccount := dbAccount.(storage := dbAccount.storage + T.Present(account));
        accounts := accounts[address := dbAccount];
        assert Current() == T.CommitOne(before, address, account, hashSlow);
      }
      C.CommitMeaning(old(Current()), changes, order, hashSlow);
      forall a | a in changes && changes[a].touched
        ensures a in accounts && CommittedAt(old(accounts), changes[a], a, accounts[a])
      {
        assert C.TouchedBy(changes, a);
      }
    }

    // ---- pools ----

    /** Seed one pool. Its three writes meet the faults of steps `k`, `k + 1` and `k + 2` of `net`. */
    method HandleStorageV2(pool: P.Pool, layout: P.Layout, net: Network, k: nat) returns (r: Outcome<()>)
      requires pool.protocol.UniSwapV2? && pool.Seedable()
      modifies this`accounts, this`originalAccounts
      ensures (Value(), r) == if pool.address.None? then (old(Value()), Ok(()))
                              else P.SeedJob(old(Value()), db, layout, P.JobOf(pool), net, k)
    {
      if pool.address.None? {
        return Ok(());
      }
      var pair, data := pool.address.value, pool.v2Data.value;
      var storage: map<U256, U256> := map[];
      storage := storage[6 := pool.token0.address];
      storage := storage[7 := pool.token1.address];
      storage := storage[8 := layout.pack(data)];
      storage := storage[9 := 1];
      storage := storage[10 := 1];
      storage := storage[12 := 1];
      assert storage == P.PairStorage(P.JobOf(pool), layout);
      r := ReplaceAccountStorage(pair, storage, net(k));
      if !r.Ok? {
        return;
      }
      r := InsertAccountStorage(pool.token0.address, layout.balanceSlot(pool.token0, pair), data.reserve0, net(k + 1));
      if !r.Ok? {
        return;
      }
      r := InsertAccountStorage(pool.token1.address, layout.balanceSlot(pool.token1, pair), data.reserve1, net(k + 2));
    }

    /** A database seeded with pools, visited in some order, which is returned. Errors are ignored. */
    static method NewWithState(db: World, hashSlow: Hasher, pools: map<string, P.Pool>, layout: P.Layout,
                               net: Network)
      returns (stateDb: StateDB, ghost order: seq<string>)
      requires P.AllSeedable(pools)
      ensures fresh(stateDb) && stateDb.db == db && stateDb.hashSlow == hashSlow
      ensures T.Enumerates(order, pools.Keys)
      ensures stateDb.Value() == P.SeedInOrder(T.NEW_STATE, db, layout, pools, order, net)
      ensures P.Working(net) && P.DistinctPairs(pools) && P.Separate(P.JobsOf(pools, pools.Keys), layout)
              ==> P.Seeded(stateDb.Value(), db, layout, P.JobsOf(pools, pools.Keys))
    {
      stateDb := new StateDB(db, hashSlow);
      order := [];
      var k := 0;
      var rest := pools.Keys;
      while rest != {}
        invariant rest <= pools.Keys && k == 3 * |order|
        invariant T.Enumerates(order, pools.Keys - rest)
        invariant stateDb.Value() == P.SeedInOrder(T.NEW_STATE, db, layout, pools, order, net)
        decreases rest
      {
        var key :| key in rest;
        var pool := pools[key];
        assert (order + [key])[..|order|] == order;
        if pool.protocol.UniSwapV2? {
          var _ := stateDb.HandleStorageV2(pool, layout, net, k);
        }
        order := order + [key];
        rest := rest - {key};
        k := k + 3;
      }
      if P.Working(net) && P.DistinctPairs(pools) && P.Separate(P.JobsOf(pools, pools.Keys), layout) {
        P.SeedingMeaning(db, layout, pools, order, net);
      }
    }

    // ---- caching reads ----

    method Basic(address: Address, f: Faults) returns (r: Outcome<Option<AccountInfo>>)
      modifies this`accounts, this`originalAccounts
      ensures var (s, answer) := T.Read(old(Value()), db, f, Query.Basic(address));
              Value() == s && AsInfo(answer) == r
    {
      var loaded := LoadAccount(address, f);
      r := match loaded
        case Ok(_) => Ok(accounts[address].Info())
        case Err(e) => Err(e)
        case Panic => Panic;
    }

    method CodeByHash(codeHash: B256, f: Faults) returns (r: Outcome<Bytecode>)
      modifies this`contracts, this`originalContracts
      ensures var (s, answer) := T.Read(old(Value()), db, f, Code(codeHash));
              Value() == s && AsCode(answer) == r
    {
      if codeHash in contracts {
        return Ok(contracts[codeHash]);
      }
      match AskWorld(db, f, Code(codeHash)) {
        case Err(e) => return Err(e);
        case Ok(answer) =>
          originalContracts := originalContracts[codeHash := answer.code];
          contracts := contracts[codeHash := answer.code];
          return Ok(answer.code);
      }
    }

    method Storage(address: Address, index: U256, f: Faults) returns (r: Outcome<U256>)
      modifies this`accounts, this`originalAccounts
      ensures var (s, answer) := T.Read(old(Value()), db, f, Slot(address, index));
              Value() == s && AsWord(answer) == r
    {
      if address in accounts {
        var account := accounts[address];
        if index in account.storage {
          return Ok(account.storage[index]);
        }
        if account.status.StorageCleared? || account.status.NotExisting? {
          return Ok(0);
        }
        match AskWorld(db, f, Slot(address, index)) {
          case Err(e) => return Err(e);
          case Ok(answer) =>
            if address !in originalAccounts {
              return Panic;
            }
            var original := originalAccounts[address];
            originalAccounts := originalAccounts[address := original.(storage := original.storage[index := answer.word])];
            accounts := accounts[address := account.(storage := account.storage[index := answer.word])];
            return Ok(answer.word);
        }
      }
      match AskWorld(db, f, Query.Basic(address)) {
        case Err(e) => return Err(e);
        case Ok(answer) =>
          var account, value := NOT_EXISTING_ACCOUNT, 0;
          if answer.info.Some? {
            match AskWorld(db, f, Slot(address, index)) {
              case Err(e) => return Err(e);
              case Ok(slot) =>
                value := slot.word;
                account := DEFAULT_ACCOUNT.(info := answer.info.value, storage := map[index := value]);
            }
          }
          originalAccounts := originalAccounts[address := account];
          accounts := accounts[address := account];
          return Ok(value);
      }
    }

    method GetBlockHash(number: U64, f: Faults) returns (r: Outcome<B256>)
      modifies this`blockHashes, this`originalBlockHashes
      ensures var (s, answer) := T.Read(old(Value()), db, f, BlockHash(number));
              Value() == s && AsWord(answer) == r
    {
      if number in blockHashes {
        return Ok(blockHashes[number]);
      }
      match AskWorld(db, f, BlockHash(number)) {
        case Err(e) => return Err(e);
        case Ok(answer) =>
          originalBlockHashes := originalBlockHashes[number := answer.word];
          blockHashes := blockHashes[number := answer.word];
          return Ok(answer.word);
      }
    }

    /** The interpreter's way in: one of the four reads. */
    method Read(q: Query, f: Faults) returns (r: Outcome<Answer>)
      modifies this
      ensures (Value(), r) == T.Read(old(Value()), db, f, q)
    {
      match q {
        case Basic(a) =>
          var info := Basic(a, f);
          r := match info case Ok(v) => Ok(InfoIs(v)) case Err(e) => Err(e) case Panic => Panic;
        case Slot(a, i) =>
          var word := Storage(a, i, f);
          r := match word case Ok(v) => Ok(WordIs(v)) case Err(e) => Err(e) case Panic => Panic;
        case Code(h) =>
          var code := CodeByHash(h, f);
          r := match code case Ok(v) => Ok(CodeIs(v)) case Err(e) => Err(e) case Panic => Panic;
        case BlockHash(n) =>
          var hash := GetBlockHash(n, f);
          r := match hash case Ok(v) => Ok(WordIs(v)) case Err(e) => Err(e) case Panic => Panic;
      }
    }

    // ---- reads that leave the cache alone ----

    /** The four `*_ref` reads. They answer with the view, and fail only when a question the cache
        cannot answer meets a fault. */
    function ReadRef(q: Query, f: Faults): (r: Outcome<Answer>)
      reads this
      ensures r == if !Local(Current(), q) && f(q).Some? then Err(f(q).value) else Ok(View(Current(), db).Get(q))
    {
      match q
      case Basic(a) =>
        if a in accounts then Ok(InfoIs(accounts[a].Info())) else AskWorld(db, f, q)
      case Slot(a, i) =>
        if a in accounts then
          if i in accounts[a].storage then Ok(WordIs(accounts[a].storage[i]))
          else if accounts[a].status.StorageCleared? || accounts[a].status.NotExisting? then Ok(WordIs(0))
          else AskWorld(db, f, q)
        else AskWorld(db, f, q)
      case Code(h) =>
        if h in contracts then Ok(CodeIs(contracts[h])) else AskWorld(db, f, q)
      case BlockHash(n) =>
        if n in blockHashes then Ok(WordIs(blockHashes[n])) else AskWorld(db, f, q)
    }
  }

  /** What a touched change leaves of an account: nothing, only the slots it sets, or those over the old ones. */
  predicate CommittedAt(before: map<Address, DbAccount>, ch: Change, a: Address, acc: DbAccount) {
    if ch.selfDestructed then acc == DbAccount(AccountInfo(0, 0, KECCAK_EMPTY, Some([])), NotExisting, map[])
    else
      var kept := if ch.created || a !in before then map[] else before[a].storage;
      && acc.info.balance == ch.info.balance && acc.info.nonce == ch.info.nonce && acc.info.code == ch.info.code
      && acc.status == (if ch.created || (a in before && before[a].status.StorageCleared?) then StorageCleared else Touched)
      && acc.storage.Keys == kept.Keys + ch.storage.Keys
      && forall i <- acc.storage ::
           acc.storage[i] == if i in ch.storage then ch.storage[i].present else kept[i]
  }

  function AsInfo(r: Outcome<Answer>): Outcome<Option<AccountInfo>> {
    match r
    case Ok(InfoIs(v)) => Ok(v)
    case Err(e) => Err(e)
    case _ => Panic
  }

  function AsCode(r: Outcome<Answer>): Outcome<Bytecode> {
    match r
    case Ok(CodeIs(v)) => Ok(v)
    case Err(e) => Err(e)
    case _ => Panic
  }

  function AsWord(r: Outcome<Answer>): Outcome<U256> {
    match r
    case Ok(WordIs(v)) => Ok(v)
    case Err(e) => Err(e)
    case _ => Panic
  }
}
