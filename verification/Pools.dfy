/** Liquidity pools, and how their reserves are seeded into a new database. */
module Pools {
  import opened Types
  import opened Layers
  import opened Transitions

  datatype PoolProtocol = UniSwapV2 | UniSwapV3 | OtherProtocol

  datatype Token = Token(address: Address, slot: U256)

  datatype UniV2Data = UniV2Data(reserve0: U256, reserve1: U256)

  /** A pool, with its addresses parsed; no address stands for the empty string. */
  datatype Pool = Pool(
    protocol: PoolProtocol,
    address: Option<Address>,
    token0: Token,
    token1: Token,
    v2Data: Option<UniV2Data>)
  {
    /** Seeding does something for this pool. */
    predicate Seeds() {
      protocol.UniSwapV2? && address.Some?
    }

    /** Seeding unwraps the reserves. */
    predicate Seedable() {
      Seeds() ==> v2Data.Some?
    }
  }

  /** What seeding a pool writes: the pair's storage and one balance in each token. */
  datatype Job = Job(pair: Address, token0: Token, token1: Token, data: UniV2Data)

  function JobOf(pool: Pool): Job
    requires pool.Seeds() && pool.Seedable()
  {
    Job(pool.address.value, pool.token0, pool.token1, pool.v2Data.value)
  }

  /** How reserves are packed into a word, and the slot of a token in which a holder's balance is kept. */
  datatype Layout = Layout(pack: UniV2Data -> U256, balanceSlot: (Token, Address) -> U256)

  /** The storage of a pair contract, as far as it is used. */
  function PairStorage(job: Job, layout: Layout): map<U256, U256> {
    map[6 := job.token0.address, 7 := job.token1.address, 8 := layout.pack(job.data), 9 := 1, 10 := 1, 12 := 1]
  }

  /** Seed one pool; the three writes meet the faults of steps `k`, `k + 1` and `k + 2`. An error stops
      after the writes already made. */
  function SeedJob(s: State, w: World, layout: Layout, job: Job, net: Network, k: nat): (State, Outcome<()>) {
    var (s1, r1) := ReplaceStorage(s, w, net(k), job.pair, PairStorage(job, layout));
    if !r1.Ok? then (s1, r1)
    else
      var (s2, r2) := InsertSlot(s1, w, net(k + 1), job.token0.address, layout.balanceSlot(job.token0, job.pair), job.data.reserve0);
      if !r2.Ok? then (s2, r2)
      else InsertSlot(s2, w, net(k + 2), job.token1.address, layout.balanceSlot(job.token1, job.pair), job.data.reserve1)
  }

  /** Seed the pools one after the other, ignoring errors. */
  function SeedInOrder(s: State, w: World, layout: Layout, pools: map<string, Pool>, order: seq<string>,
                       net: Network): State
    requires forall key <- order :: key in pools && pools[key].Seedable()
  {
    if order == [] then s
    else
      var n := |order| - 1;
      var s1 := SeedInOrder(s, w, layout, pools, order[..n], net);
      if pools[order[n]].Seeds() then SeedJob(s1, w, layout, JobOf(pools[order[n]]), net, 3 * n).0 else s1
  }

  // ---- what seeding means ----

  /** The jobs do not step on each other: pair addresses differ, the tokens of a pool differ, no token is
      a pair, and a token keeps the balances of different holders in different slots. */
  ghost predicate Separate(jobs: set<Job>, layout: Layout) {
    && (forall j <- jobs, k <- jobs ::
          && (j != k ==> j.pair != k.pair)
          && j.token0.address != k.pair && j.token1.address != k.pair)
    && (forall j <- jobs :: j.token0.address != j.token1.address)
    && (forall t: Token, u: Token, p: Address, q: Address ::
          layout.balanceSlot(t, p) == layout.balanceSlot(u, q) && t.address == u.address ==> p == q)
  }

  /** The job puts `v` at slot `i` of the token at `a`. */
  predicate Balances(job: Job, layout: Layout, a: Address, i: U256, v: U256) {
    || (a == job.token0.address && i == layout.balanceSlot(job.token0, job.pair) && v == job.data.reserve0)
    || (a == job.token1.address && i == layout.balanceSlot(job.token1, job.pair) && v == job.data.reserve1)
  }

  predicate HasToken(job: Job, a: Address) {
    a == job.token0.address || a == job.token1.address
  }

  /** A token account after seeding: as loaded, with exactly the balances of the jobs done. */
  ghost predicate TokenSeeded(acc: DbAccount, w: World, layout: Layout, done: set<Job>, a: Address) {
    && acc.info == Loaded(w, a).info && acc.status == Loaded(w, a).status
    && (forall i <- acc.storage :: exists job <- done :: Balances(job, layout, a, i, acc.storage[i]))
    && (forall job <- done, i: U256, v: U256 ::
          Balances(job, layout, a, i, v) ==> i in acc.storage && acc.storage[i] == v)
  }

  /** The account at `a` once the jobs `done` are done. */
  ghost predicate AccountSeeded(s: State, w: World, layout: Layout, done: set<Job>, a: Address) {
    && (a in s.cur.accounts <==> exists job <- done :: a == job.pair || HasToken(job, a))
    && (a in s.orig.accounts <==> a in s.cur.accounts)
    && (a in s.cur.accounts ==>
          && s.orig.accounts[a] == Loaded(w, a)
          && (forall job <- done :: a == job.pair ==>
                s.cur.accounts[a] == DbAccount(Loaded(w, a).info, StorageCleared, PairStorage(job, layout)))
          && ((forall job <- done :: a != job.pair) ==> TokenSeeded(s.cur.accounts[a], w, layout, done, a)))
  }

  ghost predicate Seeded(s: State, w: World, layout: Layout, done: set<Job>) {
    && s.cur.contracts == NEW_STATE.cur.contracts && s.cur.blockHashes == map[]
    && s.orig.contracts == map[] && s.orig.blockHashes == map[]
    && forall a: Address :: AccountSeeded(s, w, layout, done, a)
  }

  ghost predicate Working(net: Network) {
    forall k: nat, q: Query :: net(k)(q).None?
  }

  /** The account as a write finds it. */
  function Before(s: State, w: World, a: Address): DbAccount {
    if a in s.cur.accounts then s.cur.accounts[a] else Loaded(w, a)
  }

  /** Store an account, caching it first. */
  function Store(s: State, w: World, a: Address, acc: DbAccount): State {
    State(s.cur.(accounts := s.cur.accounts[a := acc]),
          if a in s.cur.accounts then s.orig else s.orig.(accounts := s.orig.accounts[a := Loaded(w, a)]))
  }

  /** A write fails exactly if it must load the account and that fails, and then changes nothing. */
  lemma WritesFailExactly(s: State, w: World, f: Faults, a: Address, i: U256, v: U256, storage: map<U256, U256>)
    ensures var failed := a !in s.cur.accounts && f(Basic(a)).Some?;
            && (LoadAccount(s, w, f, a).1.Ok? <==> !failed)
            && (InsertSlot(s, w, f, a, i, v).1.Ok? <==> !failed)
            && (ReplaceStorage(s, w, f, a, storage).1.Ok? <==> !failed)
            && (failed ==>
                  && LoadAccount(s, w, f, a) == (s, Err(f(Basic(a)).value))
                  && InsertSlot(s, w, f, a, i, v) == (s, Err(f(Basic(a)).value))
                  && ReplaceStorage(s, w, f, a, storage) == (s, Err(f(Basic(a)).value)))
  {
  }

  lemma WritesStore(s: State, w: World, f: Faults, a: Address, i: U256, v: U256, storage: map<U256, U256>)
    requires a in s.cur.accounts || f(Basic(a)).None?
    ensures InsertSlot(s, w, f, a, i, v) == (Store(s, w, a, AddSlot(Before(s, w, a), i, v)), Ok(()))
    ensures ReplaceStorage(s, w, f, a, storage)
            == (Store(s, w, a, Before(s, w, a).(status := StorageCleared, storage := storage)), Ok(()))
  {
    assert s.cur.accounts[a := Loaded(w, a)][a := AddSlot(Before(s, w, a), i, v)]
           == s.cur.accounts[a := AddSlot(Before(s, w, a), i, v)];
    var acc := Before(s, w, a).(status := StorageCleared, storage := storage);
    assert s.cur.accounts[a := Loaded(w, a)][a := acc] == s.cur.accounts[a := acc];
  }

  /** What one job does when nothing fails. */
  function Seeding(s: State, w: World, layout: Layout, job: Job): State {
    var s1 := Store(s, w, job.pair, Before(s, w, job.pair).(status := StorageCleared, storage := PairStorage(job, layout)));
    var a0, a1 := job.token0.address, job.token1.address;
    var s2 := Store(s1, w, a0, AddSlot(Before(s1, w, a0), layout.balanceSlot(job.token0, job.pair), job.data.reserve0));
    Store(s2, w, a1, AddSlot(Before(s2, w, a1), layout.balanceSlot(job.token1, job.pair), job.data.reserve1))
  }

  /** A write must load the account, and that fails. */
  predicate WriteFails(s: State, f: Faults, a: Address) {
    a !in s.cur.accounts && f(Basic(a)).Some?
  }

  /** Seeding a pool stops at its first write that fails, with that error; the writes before it stand. */
  lemma SeedJobStops(s: State, w: World, layout: Layout, job: Job, net: Network, k: nat)
    ensures var a0, a1 := job.token0.address, job.token1.address;
            var s1 := Store(s, w, job.pair, Before(s, w, job.pair).(status := StorageCleared, storage := PairStorage(job, layout)));
            var s2 := Store(s1, w, a0, AddSlot(Before(s1, w, a0), layout.balanceSlot(job.token0, job.pair), job.data.reserve0));
            SeedJob(s, w, layout, job, net, k) ==
              if WriteFails(s, net(k), job.pair) then (s, Err(net(k)(Basic(job.pair)).value))
              else if WriteFails(s1, net(k + 1), a0) then (s1, Err(net(k + 1)(Basic(a0)).value))
              else if WriteFails(s2, net(k + 2), a1) then (s2, Err(net(k + 2)(Basic(a1)).value))
              else (Seeding(s, w, layout, job), Ok(()))
  {
    var a0, a1 := job.token0.address, job.token1.address;
    var i0, i1 := layout.balanceSlot(job.token0, job.pair), layout.balanceSlot(job.token1, job.pair);
    WritesFailExactly(s, w, net(k), job.pair, 0, 0, PairStorage(job, layout));
    if !WriteFails(s, net(k), job.pair) {
      WritesStore(s, w, net(k), job.pair, 0, 0, PairStorage(job, layout));
      var s1 := ReplaceStorage(s, w, net(k), job.pair, PairStorage(job, layout)).0;
      WritesFailExactly(s1, w, net(k + 1), a0, i0, job.data.reserve0, map[]);
      if !WriteFails(s1, net(k + 1), a0) {
        WritesStore(s1, w, net(k + 1), a0, i0, job.data.reserve0, map[]);
        var s2 := InsertSlot(s1, w, net(k + 1), a0, i0, job.data.reserve0).0;
        WritesFailExactly(s2, w, net(k + 2), a1, i1, job.data.reserve1, map[]);
        if !WriteFails(s2, net(k + 2), a1) {
          WritesStore(s2, w, net(k + 2), a1, i1, job.data.reserve1, map[]);
        }
      }
    }
  }

  /** Seeding goes on after an error: a pool whose own writes do not fail is seeded whatever failed before. */
  lemma SeedingGoesOn(s: State, w: World, layout: Layout, pools: map<string, Pool>, order: seq<string>,
                      net: Network, key: string)
    requires forall k <- order + [key] :: k in pools && pools[k].Seedable()
    requires pools[key].protocol.UniSwapV2? && pools[key].address.Some?
    requires forall k: nat, q: Query :: 3 * |order| <= k < 3 * |order| + 3 ==> net(k)(q).None?
    ensures forall k <- order :: k in pools && pools[k].Seedable()
    ensures SeedInOrder(s, w, layout, pools, order + [key], net)
            == Seeding(SeedInOrder(s, w, layout, pools, order, net), w, layout, JobOf(pools[key]))
  {
    assert forall k <- order :: k in order + [key];
    assert (order + [key])[..|order|] == order;
    SeedJobStops(SeedInOrder(s, w, layout, pools, order, net), w, layout, JobOf(pools[key]), net, 3 * |order|);
  }

  /** Pools of other kinds, and those without an address, have no part in seeding: whatever they hold makes no
      difference. */
  lemma {:induction false} OtherPoolsDoNotSeed(s: State, w: World, layout: Layout, pools: map<string, Pool>,
                                               others: map<string, Pool>, order: seq<string>, net: Network)
    requires forall key <- order :: key in pools && key in others
    requires forall key <- order :: pools[key].Seedable() && others[key].Seedable()
    requires forall key <- order ::
               if pools[key].protocol.UniSwapV2? && pools[key].address.Some? then others[key] == pools[key]
               else !others[key].protocol.UniSwapV2? || others[key].address.None?
    ensures SeedInOrder(s, w, layout, pools, order, net) == SeedInOrder(s, w, layout, others, order, net)
    decreases |order|
  {
    if order != [] {
      OtherPoolsDoNotSeed(s, w, layout, pools, others, order[..|order| - 1], net);
      assert order[|order| - 1] in order;
    }
  }

  /** The balance a job puts in the token at `a`: its slot and its value. */
  function Gain(job: Job, layout: Layout, a: Address): (U256, U256)
    requires HasToken(job, a)
  {
    if a == job.token0.address then (layout.balanceSlot(job.token0, job.pair), job.data.reserve0)
    else (layout.balanceSlot(job.token1, job.pair), job.data.reserve1)
  }

  /** Jobs for different pairs write different slots of a token. */
  lemma GainsDiffer(jobs: set<Job>, layout: Layout, job: Job, k: Job, a: Address, i: U256, v: U256)
    requires Separate(jobs, layout) && job in jobs && k in jobs && k != job
    requires HasToken(job, a) && Balances(k, layout, a, i, v)
    ensures i != Gain(job, layout, a).0
  {
  }

  lemma TokenGains(before: DbAccount, w: World, layout: Layout, done: set<Job>, job: Job, a: Address)
    requires TokenSeeded(before, w, layout, done, a) && Separate(done + {job}, layout)
    requires job !in done && HasToken(job, a)
    ensures var (i, v) := Gain(job, layout, a);
            TokenSeeded(AddSlot(before, i, v), w, layout, done + {job}, a)
  {
    var (i0, v0) := Gain(job, layout, a);
    var more, storage := done + {job}, before.storage[i0 := v0];
    forall i | i in storage ensures exists k <- more :: Balances(k, layout, a, i, storage[i]) {
      if i == i0 {
        assert job in more && Balances(job, layout, a, i, v0);
      } else {
        var k :| k in done && Balances(k, layout, a, i, before.storage[i]);
        assert k in more;
      }
    }
    forall k, i: U256, v: U256 | k in more && Balances(k, layout, a, i, v)
      ensures i in storage && storage[i] == v
    {
      if k != job {
        GainsDiffer(more, layout, job, k, a, i, v);
      }
    }
  }

  /** A token account before the job: seeded so far, or not yet known. */
  lemma TokenBefore(s: State, w: World, layout: Layout, done: set<Job>, job: Job, a: Address)
    requires AccountSeeded(s, w, layout, done, a) && Separate(done + {job}, layout) && HasToken(job, a)
    ensures TokenSeeded(Before(s, w, a), w, layout, done, a)
    ensures forall k <- done + {job} :: a != k.pair
  {
    var more := done + {job};
    assert job in more && forall k <- done :: k in more;
    forall k | k in more ensures a != k.pair {
      assert job in more;
    }
    if a !in s.cur.accounts {
      assert forall k <- done :: !HasToken(k, a);
    }
  }

  lemma PairSeeded(s: State, w: World, layout: Layout, done: set<Job>, job: Job)
    requires AccountSeeded(s, w, layout, done, job.pair) && Separate(done + {job}, layout) && job !in done
    ensures AccountSeeded(Seeding(s, w, layout, job), w, layout, done + {job}, job.pair)
  {
    var more := done + {job};
    assert job in more && forall j <- done :: j in more;
    assert job.pair !in s.cur.accounts;
  }

  lemma TokenAccountSeeded(s: State, w: World, layout: Layout, done: set<Job>, job: Job, a: Address)
    requires AccountSeeded(s, w, layout, done, a) && Separate(done + {job}, layout) && job !in done
    requires HasToken(job, a)
    ensures AccountSeeded(Seeding(s, w, layout, job), w, layout, done + {job}, a)
  {
    var s' := Seeding(s, w, layout, job);
    var more := done + {job};
    var (i, v) := Gain(job, layout, a);
    assert job in more && forall j <- done :: j in more;
    assert a != job.pair;
    assert s'.cur.accounts[a] == AddSlot(Before(s, w, a), i, v);
    TokenBefore(s, w, layout, done, job, a);
    TokenGains(Before(s, w, a), w, layout, done, job, a);
  }

  lemma OtherAccountSeeded(s: State, w: World, layout: Layout, done: set<Job>, job: Job, a: Address)
    requires AccountSeeded(s, w, layout, done, a) && a != job.pair && !HasToken(job, a)
    ensures AccountSeeded(Seeding(s, w, layout, job), w, layout, done + {job}, a)
  {
    var s' := Seeding(s, w, layout, job);
    var more := done + {job};
    assert job in more && forall j <- done :: j in more;
    assert a in s'.cur.accounts <==> a in s.cur.accounts;
    if a in s.cur.accounts && forall j <- more :: a != j.pair {
      TokenUngained(s.cur.accounts[a], w, layout, done, job, a);
    }
  }

  lemma TokenUngained(acc: DbAccount, w: World, layout: Layout, done: set<Job>, job: Job, a: Address)
    requires TokenSeeded(acc, w, layout, done, a) && !HasToken(job, a)
    ensures TokenSeeded(acc, w, layout, done + {job}, a)
  {
    forall i | i in acc.storage ensures exists k <- done + {job} :: Balances(k, layout, a, i, acc.storage[i]) {
      var k :| k in done && Balances(k, layout, a, i, acc.storage[i]);
      assert k in done + {job};
    }
  }

  /** One job more. */
  lemma SeedOneMore(s: State, w: World, layout: Layout, done: set<Job>, job: Job, a: Address)
    requires Seeded(s, w, layout, done) && Separate(done + {job}, layout) && job !in done
    ensures AccountSeeded(Seeding(s, w, layout, job), w, layout, done + {job}, a)
  {
    assert AccountSeeded(s, w, layout, done, a);
    if a == job.pair {
      PairSeeded(s, w, layout, done, job);
    } else if HasToken(job, a) {
      TokenAccountSeeded(s, w, layout, done, job, a);
    } else {
      OtherAccountSeeded(s, w, layout, done, job, a);
    }
  }

  ghost predicate AllSeedable(pools: map<string, Pool>) {
    forall key <- pools :: pools[key].Seedable()
  }

  /** The jobs of the pools with the given keys. */
  ghost function JobsOf(pools: map<string, Pool>, keys: set<string>): set<Job>
    requires AllSeedable(pools)
  {
    set key | key in keys && key in pools && pools[key].Seeds() :: JobOf(pools[key])
  }

  ghost predicate DistinctPairs(pools: map<string, Pool>) {
    forall k <- pools, l <- pools :: k != l && pools[k].Seeds() && pools[l].Seeds() ==> pools[k].address != pools[l].address
  }

  lemma SeparateSubset(jobs: set<Job>, some: set<Job>, layout: Layout)
    requires Separate(jobs, layout) && some <= jobs
    ensures Separate(some, layout)
  {
    forall j, k | j in some && k in some
      ensures (j != k ==> j.pair != k.pair) && j.token0.address != k.pair && j.token1.address != k.pair
    {
      assert j in jobs && k in jobs;
    }
    assert forall j <- some :: j in jobs;
  }

  lemma JobsGrow(pools: map<string, Pool>, keys: set<string>, key: string)
    requires AllSeedable(pools) && DistinctPairs(pools) && keys <= pools.Keys && key in pools && key !in keys
    ensures if pools[key].Seeds() then
              JobOf(pools[key]) !in JobsOf(pools, keys) && JobsOf(pools, keys + {key}) == JobsOf(pools, keys) + {JobOf(pools[key])}
            else JobsOf(pools, keys + {key}) == JobsOf(pools, keys)
  {
  }

  lemma SeedStep(s: State, w: World, layout: Layout, done: set<Job>, job: Job, net: Network, k: nat)
    requires Working(net) && Seeded(s, w, layout, done) && Separate(done + {job}, layout) && job !in done
    ensures Seeded(SeedJob(s, w, layout, job, net, k).0, w, layout, done + {job})
  {
    SeedJobStops(s, w, layout, job, net, k);
    forall a: Address ensures AccountSeeded(Seeding(s, w, layout, job), w, layout, done + {job}, a) {
      SeedOneMore(s, w, layout, done, job, a);
    }
  }

  function Elements(order: seq<string>): set<string> {
    set key | key in order
  }

  lemma {:induction false} SeedPrefix(w: World, layout: Layout, pools: map<string, Pool>, order: seq<string>,
                                      net: Network)
    requires Working(net) && AllSeedable(pools) && DistinctPairs(pools)
    requires Separate(JobsOf(pools, pools.Keys), layout)
    requires forall key <- order :: key in pools
    requires forall i, j :: 0 <= i < j < |order| ==> order[i] != order[j]
    ensures Seeded(SeedInOrder(NEW_STATE, w, layout, pools, order, net), w, layout, JobsOf(pools, Elements(order)))
    decreases |order|
  {
    if order == [] {
      NothingSeeded(w, layout);
      assert JobsOf(pools, Elements(order)) == {};
    } else {
      var n := |order| - 1;
      var key, before := order[n], order[..n];
      SeedPrefix(w, layout, pools, before, net);
      assert Elements(order) == Elements(before) + {key} by {
        assert order == before + [key];
      }
      SeedNext(SeedInOrder(NEW_STATE, w, layout, pools, before, net), w, layout, pools, Elements(before), key, net, 3 * n);
    }
  }

  lemma NothingSeeded(w: World, layout: Layout)
    ensures Seeded(NEW_STATE, w, layout, {})
  {
  }

  lemma SeedNext(s: State, w: World, layout: Layout, pools: map<string, Pool>, keys: set<string>, key: string,
                 net: Network, k: nat)
    requires Working(net) && AllSeedable(pools) && DistinctPairs(pools)
    requires Separate(JobsOf(pools, pools.Keys), layout)
    requires keys <= pools.Keys && key in pools && key !in keys
    requires Seeded(s, w, layout, JobsOf(pools, keys))
    ensures Seeded(if pools[key].Seeds() then SeedJob(s, w, layout, JobOf(pools[key]), net, k).0 else s,
                   w, layout, JobsOf(pools, keys + {key}))
  {
    JobsGrow(pools, keys, key);
    if pools[key].Seeds() {
      SeparateSubset(JobsOf(pools, pools.Keys), JobsOf(pools, keys + {key}), layout);
      SeedStep(s, w, layout, JobsOf(pools, keys), JobOf(pools[key]), net, k);
    }
  }

  /** The state after seeding, in any order, when no question fails. */
  lemma SeedingMeaning(w: World, layout: Layout, pools: map<string, Pool>, order: seq<string>, net: Network)
    requires Working(net) && AllSeedable(pools) && DistinctPairs(pools)
    requires Separate(JobsOf(pools, pools.Keys), layout) && Enumerates(order, pools.Keys)
    ensures Seeded(SeedInOrder(NEW_STATE, w, layout, pools, order, net), w, layout, JobsOf(pools, pools.Keys))
  {
    SeedPrefix(w, layout, pools, order, net);
    assert Elements(order) == pools.Keys;
  }

  /** A reader of the seeded database finds every pair's storage as injected and 0 elsewhere, and in each
      token the pair's balance equal to the reserve. */
  lemma SeededPoolReads(w: World, layout: Layout, pools: map<string, Pool>, order: seq<string>, net: Network,
                        key: string)
    requires Working(net) && AllSeedable(pools) && DistinctPairs(pools)
    requires Separate(JobsOf(pools, pools.Keys), layout) && Enumerates(order, pools.Keys)
    requires key in pools && pools[key].protocol.UniSwapV2? && pools[key].address.Some?
    ensures var l := SeedInOrder(NEW_STATE, w, layout, pools, order, net).cur;
            var pool := pools[key];
            var pair, data := pool.address.value, pool.v2Data.value;
            && InfoAt(l, w, pair) == Some(if w.info(pair).Some? then w.info(pair).value
                                          else AccountInfo(0, 0, KECCAK_EMPTY, Some([])))
            && SlotAt(l, w, pair, 6) == pool.token0.address
            && SlotAt(l, w, pair, 7) == pool.token1.address
            && SlotAt(l, w, pair, 8) == layout.pack(data)
            && SlotAt(l, w, pair, 9) == SlotAt(l, w, pair, 10) == SlotAt(l, w, pair, 12) == 1
            && (forall i: U256 :: i !in {6, 7, 8, 9, 10, 12} ==> SlotAt(l, w, pair, i) == 0)
            && SlotAt(l, w, pool.token0.address, layout.balanceSlot(pool.token0, pair)) == data.reserve0
            && SlotAt(l, w, pool.token1.address, layout.balanceSlot(pool.token1, pair)) == data.reserve1
  {
    SeedingMeaning(w, layout, pools, order, net);
    var jobs := JobsOf(pools, pools.Keys);
    assert JobOf(pools[key]) in jobs;
    JobReads(SeedInOrder(NEW_STATE, w, layout, pools, order, net), w, layout, jobs, JobOf(pools[key]));
  }

  lemma JobReads(s: State, w: World, layout: Layout, jobs: set<Job>, job: Job)
    requires Seeded(s, w, layout, jobs) && Separate(jobs, layout) && job in jobs
    ensures InfoAt(s.cur, w, job.pair) == Some(Loaded(w, job.pair).info)
    ensures forall i: U256 :: SlotAt(s.cur, w, job.pair, i)
              == if i in PairStorage(job, layout) then PairStorage(job, layout)[i] else 0
    ensures SlotAt(s.cur, w, job.token0.address, layout.balanceSlot(job.token0, job.pair)) == job.data.reserve0
    ensures SlotAt(s.cur, w, job.token1.address, layout.balanceSlot(job.token1, job.pair)) == job.data.reserve1
  {
    PairReads(s, w, layout, jobs, job);
    BalanceReads(s, w, layout, jobs, job, job.token0.address);
    BalanceReads(s, w, layout, jobs, job, job.token1.address);
  }

  lemma PairReads(s: State, w: World, layout: Layout, jobs: set<Job>, job: Job)
    requires AccountSeeded(s, w, layout, jobs, job.pair) && job in jobs
    ensures InfoAt(s.cur, w, job.pair) == Some(Loaded(w, job.pair).info)
    ensures forall i: U256 :: SlotAt(s.cur, w, job.pair, i)
              == if i in PairStorage(job, layout) then PairStorage(job, layout)[i] else 0
  {
    assert s.cur.accounts[job.pair] == DbAccount(Loaded(w, job.pair).info, StorageCleared, PairStorage(job, layout));
  }

  lemma BalanceReads(s: State, w: World, layout: Layout, jobs: set<Job>, job: Job, a: Address)
    requires AccountSeeded(s, w, layout, jobs, a) && Separate(jobs, layout) && job in jobs && HasToken(job, a)
    ensures SlotAt(s.cur, w, a, Gain(job, layout, a).0) == Gain(job, layout, a).1
  {
    var (i, v) := Gain(job, layout, a);
    assert Balances(job, layout, a, i, v);
  }

  /** The order in which the pools are visited, and the faults that did not happen, leave no trace. */
  lemma SeedingIsOrderIndependent(w: World, layout: Layout, pools: map<string, Pool>,
                                  o1: seq<string>, o2: seq<string>, net1: Network, net2: Network)
    requires Working(net1) && Working(net2) && AllSeedable(pools) && DistinctPairs(pools)
    requires Separate(JobsOf(pools, pools.Keys), layout)
    requires Enumerates(o1, pools.Keys) && Enumerates(o2, pools.Keys)
    ensures SeedInOrder(NEW_STATE, w, layout, pools, o1, net1) == SeedInOrder(NEW_STATE, w, layout, pools, o2, net2)
  {
    SeedingMeaning(w, layout, pools, o1, net1);
    SeedingMeaning(w, layout, pools, o2, net2);
    var jobs := JobsOf(pools, pools.Keys);
    var s, t := SeedInOrder(NEW_STATE, w, layout, pools, o1, net1), SeedInOrder(NEW_STATE, w, layout, pools, o2, net2);
    forall a: Address
      ensures (a in s.cur.accounts <==> a in t.cur.accounts)
              && (a in s.cur.accounts ==> s.cur.accounts[a] == t.cur.accounts[a])
    {
      SeededIsDetermined(s, t, w, layout, jobs, a);
    }
    SeededOriginals(s, w, layout, jobs);
    SeededOriginals(t, w, layout, jobs);
    assert s.cur.accounts == t.cur.accounts;
    assert s.orig.accounts == t.orig.accounts;
  }

  lemma SeededOriginals(s: State, w: World, layout: Layout, jobs: set<Job>)
    requires Seeded(s, w, layout, jobs)
    ensures s.orig.accounts == map a | a in s.cur.accounts :: Loaded(w, a)
  {
    forall a: Address
      ensures (a in s.orig.accounts <==> a in s.cur.accounts)
              && (a in s.orig.accounts ==> s.orig.accounts[a] == Loaded(w, a))
    {
      assert AccountSeeded(s, w, layout, jobs, a);
    }
  }

  lemma SeededIsDetermined(s: State, t: State, w: World, layout: Layout, jobs: set<Job>, a: Address)
    requires AccountSeeded(s, w, layout, jobs, a) && AccountSeeded(t, w, layout, jobs, a)
    ensures a in s.cur.accounts <==> a in t.cur.accounts
    ensures a in s.cur.accounts ==> s.cur.accounts[a] == t.cur.accounts[a]
  {
    if a in s.cur.accounts && forall job <- jobs :: a != job.pair {
      var x, y := s.cur.accounts[a].storage, t.cur.accounts[a].storage;
      forall i | i in x ensures i in y && y[i] == x[i] {
        var job :| job in jobs && Balances(job, layout, a, i, x[i]);
      }
      forall i | i in y ensures i in x {
        var job :| job in jobs && Balances(job, layout, a, i, y[i]);
      }
      assert x == y;
    }
  }

  /** The checkpoint holds accounts as they were loaded and nothing else. */
  ghost predicate OnlyLoaded(s: State, w: World) {
    && s.orig.contracts == map[] && s.orig.blockHashes == map[]
    && forall a <- s.orig.accounts :: s.orig.accounts[a] == Loaded(w, a)
  }

  lemma LoadOnlyLoads(s: State, w: World, f: Faults, a: Address)
    requires OnlyLoaded(s, w)
    ensures OnlyLoaded(LoadAccount(s, w, f, a).0, w)
  {
  }

  lemma InsertOnlyLoads(s: State, w: World, f: Faults, a: Address, i: U256, v: U256)
    requires OnlyLoaded(s, w)
    ensures OnlyLoaded(InsertSlot(s, w, f, a, i, v).0, w)
  {
    LoadOnlyLoads(s, w, f, a);
  }

  lemma ReplaceOnlyLoads(s: State, w: World, f: Faults, a: Address, storage: map<U256, U256>)
    requires OnlyLoaded(s, w)
    ensures OnlyLoaded(ReplaceStorage(s, w, f, a, storage).0, w)
  {
    LoadOnlyLoads(s, w, f, a);
  }

  lemma SeedJobOnlyLoads(s: State, w: World, layout: Layout, job: Job, net: Network, k: nat)
    requires OnlyLoaded(s, w)
    ensures OnlyLoaded(SeedJob(s, w, layout, job, net, k).0, w)
  {
    var i0, i1 := layout.balanceSlot(job.token0, job.pair), layout.balanceSlot(job.token1, job.pair);
    ReplaceOnlyLoads(s, w, net(k), job.pair, PairStorage(job, layout));
    var s1 := ReplaceStorage(s, w, net(k), job.pair, PairStorage(job, layout)).0;
    InsertOnlyLoads(s1, w, net(k + 1), job.token0.address, i0, job.data.reserve0);
    var s2 := InsertSlot(s1, w, net(k + 1), job.token0.address, i0, job.data.reserve0).0;
    InsertOnlyLoads(s2, w, net(k + 2), job.token1.address, i1, job.data.reserve1);
  }

  lemma {:induction false} SeedingOnlyLoads(w: World, layout: Layout, pools: map<string, Pool>,
                                            order: seq<string>, net: Network)
    requires forall key <- order :: key in pools && pools[key].Seedable()
    ensures OnlyLoaded(SeedInOrder(NEW_STATE, w, layout, pools, order, net), w)
    decreases |order|
  {
    if order != [] {
      var n := |order| - 1;
      SeedingOnlyLoads(w, layout, pools, order[..n], net);
      if pools[order[n]].Seeds() {
        SeedJobOnlyLoads(SeedInOrder(NEW_STATE, w, layout, pools, order[..n], net), w, layout,
                         JobOf(pools[order[n]]), net, 3 * n);
      }
    }
  }

  /** Seeding takes no checkpoint: whatever the pools, their order and the faults, a clone of a seeded database
      shows the bare backend. */
  lemma {:induction false} CloneForgetsSeeding(w: World, layout: Layout, pools: map<string, Pool>,
                                               order: seq<string>, net: Network)
    requires forall key <- order :: key in pools && pools[key].Seedable()
    requires AbsentIsZero(w)
    ensures Same(View(Clone(SeedInOrder(NEW_STATE, w, layout, pools, order, net)).cur, w), w)
  {
    SeedingOnlyLoads(w, layout, pools, order, net);
    var s := SeedInOrder(NEW_STATE, w, layout, pools, order, net);
    forall a: Address, i: U256 ensures SlotAt(s.orig, w, a, i) == w.slot(a, i) {
      assert w.info(a).None? ==> w.slot(a, i) == 0;
    }
  }
}
