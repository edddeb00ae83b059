/** Whole simulations: transactions run and committed one after the other on the cached simulator, against
    the same transactions on an uncached database. */
module Simulations {
  import opened Types
  import opened Layers
  import opened Transitions
  import opened Reads
  import opened Commits
  import opened Overlay
  import opened Programs
  import opened Pools
  import opened Runs
  import opened Simulator

  /** A transaction: its program, what it returns out of gas, the faults it meets, whether it is committed,
      and the order in which its changes are visited then. */
  datatype Tx = Tx(
    program: Program<Execution>,
    halt: Execution,
    net: Network,
    gas: nat,
    commits: bool,
    order: Changes -> seq<Address>)

  /** The iteration order visits every change of any batch once. */
  ghost predicate Sound(tx: Tx) {
    forall changes: Changes :: Enumerates(tx.order(changes), changes.Keys)
  }

  ghost predicate AllSound(txs: seq<Tx>) {
    forall tx <- txs :: Sound(tx)
  }

  /** The constants of a simulation: backend, code hash, log decoder. */
  datatype Setting = Setting(world: World, hash: Hasher, decode: SyncDecoder)

  function CommitOf(tx: Tx, exec: Execution): Op {
    CommitBatch(exec.changes, tx.order(exec.changes))
  }

  function PoolsAfter(pools: PoolMap, exec: Execution, decode: SyncDecoder): PoolMap {
    if exec.success then ApplyLogs(pools, Decodable(exec.logs, decode), decode) else pools
  }

  /** What the caller of a transaction gets: a log that does not decode turns a committed success into an error,
      although its effects stand. */
  function Returned(tx: Tx, decode: SyncDecoder, out: TxResult<Execution>): TxResult<Execution> {
    if out.Finished? && tx.commits && out.result.success && Decodable(out.result.logs, decode) != out.result.logs
    then BadLog else out
  }

  // ---- the uncached simulator: a total database and the pools, and nothing else ----

  datatype Plain = Plain(world: World, pools: PoolMap)

  function PlainResult(o: World, tx: Tx): Execution {
    var r := RunRef(tx.program, o, [], tx.gas);
    if r.Some? then r.value else tx.halt
  }

  ghost function PlainNext(u: Plain, c: Setting, tx: Tx): Plain {
    var exec := PlainResult(u.world, tx);
    if tx.commits then Plain(Effect(u.world, CommitOf(tx, exec), c.hash), PoolsAfter(u.pools, exec, c.decode)) else u
  }

  ghost function PlainSimulate(u: Plain, c: Setting, txs: seq<Tx>): Plain
    decreases |txs|
  {
    if txs == [] then u else PlainSimulate(PlainNext(u, c, txs[0]), c, txs[1..])
  }

  /** What the transactions return, one after the other. */
  ghost function PlainResults(u: Plain, c: Setting, txs: seq<Tx>): seq<TxResult<Execution>>
    decreases |txs|
  {
    if txs == [] then []
    else [Returned(txs[0], c.decode, Finished(PlainResult(u.world, txs[0])))]
         + PlainResults(PlainNext(u, c, txs[0]), c, txs[1..])
  }

  // ---- the cached simulator ----

  /** The cached side (`trace.db`, `pools`), the uncached side beside it (`trace.model`, `modelPools`), and the
      run's bookkeeping. */
  datatype Sim = Sim(trace: Trace, pools: PoolMap, modelPools: PoolMap)

  /** The state after running the transaction's program, and what it returns. */
  function Ran(t: Trace, c: Setting, tx: Tx): (State, TxResult<Execution>) {
    var (s, out) := Run(tx.program, t.db, c.world, tx.net, [], tx.gas);
    (s, ToResult(out, tx.halt))
  }

  /** One transaction. The cached side commits what it computed, the uncached side what it computed; a
      transaction that fails on a fault leaves only cached entries behind. */
  ghost function Next(sim: Sim, c: Setting, tx: Tx): Sim
    requires Sound(tx)
  {
    var t := sim.trace;
    var (s, out) := Ran(t, c, tx);
    if !out.Finished? then sim.(trace := t.(db := s))
    else
      var u := PlainNext(Plain(t.model, sim.modelPools), c, tx);
      if !tx.commits then Sim(t.(db := s, model := u.world), sim.pools, u.pools)
      else
        var exec := out.result;
        Sim(Trace(Step(s, c.world, c.hash, NO_FAULTS, CommitOf(tx, exec)).0, u.world, t.checkpoint),
            PoolsAfter(sim.pools, exec, c.decode),
            u.pools)
  }

  ghost function Simulate(sim: Sim, c: Setting, txs: seq<Tx>): Sim
    requires AllSound(txs)
    decreases |txs|
  {
    if txs == [] then sim else Simulate(Next(sim, c, txs[0]), c, txs[1..])
  }

  ghost function Results(sim: Sim, c: Setting, txs: seq<Tx>): seq<TxResult<Execution>>
    requires AllSound(txs)
    decreases |txs|
  {
    if txs == [] then []
    else [Returned(txs[0], c.decode, Ran(sim.trace, c, txs[0]).1)] + Results(Next(sim, c, txs[0]), c, txs[1..])
  }

  /** The transactions whose programs end: their effects stand, also if a log makes the call an error. */
  ghost function Completed(sim: Sim, c: Setting, txs: seq<Tx>): seq<Tx>
    requires AllSound(txs)
    decreases |txs|
  {
    if txs == [] then []
    else (if Ran(sim.trace, c, txs[0]).1.Finished? then [txs[0]] else []) + Completed(Next(sim, c, txs[0]), c, txs[1..])
  }

  /** The uncached side is the uncached simulator over the transactions that complete. */
  lemma {:induction false} ModelIsPlain(sim: Sim, c: Setting, txs: seq<Tx>)
    requires AllSound(txs)
    ensures var end := Simulate(sim, c, txs);
            Plain(end.trace.model, end.modelPools)
            == PlainSimulate(Plain(sim.trace.model, sim.modelPools), c, Completed(sim, c, txs))
    decreases |txs|
  {
    if txs != [] {
      var done := Completed(Next(sim, c, txs[0]), c, txs[1..]);
      ModelIsPlain(Next(sim, c, txs[0]), c, txs[1..]);
      assert ([txs[0]] + done)[1..] == done;
      assert [] + done == done;
    }
  }

  // ---- exactly when the two sides stay in step ----

  /** No two changes of the batch the transaction commits disagree on the code of a hash. */
  ghost predicate OneCode(sim: Sim, c: Setting, tx: Tx) {
    var out := Ran(sim.trace, c, tx).1;
    out.Finished? && tx.commits ==> OneCodePerHash(CommitOf(tx, out.result), c.hash)
  }

  ghost predicate AlwaysOneCode(sim: Sim, c: Setting, txs: seq<Tx>)
    requires AllSound(txs)
    decreases |txs|
  {
    txs == [] || (OneCode(sim, c, txs[0]) && AlwaysOneCode(Next(sim, c, txs[0]), c, txs[1..]))
  }

  /** The commit matches the checkpoint, and what it writes keeps its meaning. */
  ghost predicate Fits(sim: Sim, c: Setting, tx: Tx) {
    var (s, out) := Ran(sim.trace, c, tx);
    out.Finished? && tx.commits ==>
      && SafeStep(s, c.world, CommitOf(tx, out.result))
      && WritesFaithfully(s.cur, c.world, CommitOf(tx, out.result), c.hash)
  }

  /** Every transaction fits when its turn comes. */
  ghost predicate AllFit(sim: Sim, c: Setting, txs: seq<Tx>)
    requires AllSound(txs)
    decreases |txs|
  {
    txs == [] || (Fits(sim, c, txs[0]) && AllFit(Next(sim, c, txs[0]), c, txs[1..]))
  }

  /** No reader can tell the two databases apart, and a clone shows the checkpoint, also after a further read. */
  ghost predicate Shown(sim: Sim, c: Setting) {
    && Same(View(sim.trace.db.cur, c.world), sim.trace.model)
    && ShowsCheckpoint(sim.trace, c.world)
  }

  ghost predicate AlwaysShown(sim: Sim, c: Setting, txs: seq<Tx>)
    requires AllSound(txs)
    decreases |txs|
  {
    Shown(sim, c) && (txs != [] ==> AlwaysShown(Next(sim, c, txs[0]), c, txs[1..]))
  }

  /** The invariant of a simulation. */
  ghost predicate InStep(sim: Sim, c: Setting) {
    && Isolated(sim.trace, c.world)
    && Refined(sim.trace, c.world)
    && sim.pools == sim.modelPools
  }

  /** A program that runs leaves the invariants of a run in place. */
  lemma RunKeepsTrace<R>(p: Program<R>, t: Trace, w: World, net: Network, gas: nat)
    requires Isolated(t, w) && Refined(t, w)
    ensures var t' := t.(db := Run(p, t.db, w, net, [], gas).0);
            Isolated(t', w) && Refined(t', w)
  {
    var inv := (s: State) => Isolated(t.(db := s), w) && Refined(t.(db := s), w);
    forall s: State, f: Faults, q: Query | inv(s) ensures inv(Read(s, w, f, q).0) {
      ReadKeepsTrace(t.(db := s), w, f, q);
    }
    assert t.(db := t.db) == t;
    RunKeeps(p, t.db, w, net, [], gas, inv);
  }

  lemma ReadKeepsTrace(t: Trace, w: World, f: Faults, q: Query)
    requires Isolated(t, w) && Refined(t, w)
    ensures var t' := t.(db := Read(t.db, w, f, q).0);
            Isolated(t', w) && Refined(t', w)
  {
    ReadKeepsView(t.db, w, f, q);
    ReadKeepsCheckpoint(t.db, w, f, q);
    ReadKeepsTidy(t.db, w, f, q);
  }

  lemma ReadKeepsTidy(s: State, w: World, f: Faults, q: Query)
    requires OriginalsCached(s) && AbsentIsZeroOutside(s.orig, w) && Tidy(s.cur) && Tidy(s.orig)
    ensures var s' := Read(s, w, f, q).0;
            AbsentIsZeroOutside(s'.orig, w) && Tidy(s'.cur) && Tidy(s'.orig)
  {
    ReadCases(s, w, f, q);
  }

  /** A transaction that completes returns on the cache what it returns on the uncached database. */
  lemma SameResult(sim: Sim, c: Setting, tx: Tx)
    requires InStep(sim, c)
    ensures var out, plain := Ran(sim.trace, c, tx).1, PlainResult(sim.trace.model, tx);
            out.Finished? ==>
              && out.result == plain
              && Returned(tx, c.decode, out) == Returned(tx, c.decode, Finished(plain))
  {
    var t := sim.trace;
    RunAnswersView(tx.program, t.db, c.world, tx.net, [], tx.gas);
    SameWorldsSameRun(tx.program, View(t.db.cur, c.world), t.model, [], tx.gas);
  }

  /** The bookkeeping of a transaction is that of a run's event after a program. */
  lemma NextIsAdvance(sim: Sim, c: Setting, tx: Tx)
    requires Sound(tx)
    requires Ran(sim.trace, c, tx).1.Finished? ==> Ran(sim.trace, c, tx).1.result == PlainResult(sim.trace.model, tx)
    ensures var (s, out) := Ran(sim.trace, c, tx);
            var t1, next := sim.trace.(db := s), Next(sim, c, tx);
            && next.trace == (if out.Finished? && tx.commits then
                                Advance(t1, c.world, c.hash, Event(CommitOf(tx, out.result), NO_FAULTS))
                              else t1)
            && (sim.pools == sim.modelPools ==> next.pools == next.modelPools)
  {
  }

  /** A transaction keeps the two sides in step exactly if it fits. */
  lemma NextIsExact(sim: Sim, c: Setting, tx: Tx)
    requires InStep(sim, c) && Sound(tx) && OneCode(sim, c, tx)
    ensures Fits(sim, c, tx) <==> InStep(Next(sim, c, tx), c)
    ensures Fits(sim, c, tx) <==> Shown(Next(sim, c, tx), c)
  {
    var (s, out) := Ran(sim.trace, c, tx);
    var t1 := sim.trace.(db := s);
    RunKeepsTrace(tx.program, sim.trace, c.world, tx.net, tx.gas);
    SameResult(sim, c, tx);
    NextIsAdvance(sim, c, tx);
    if out.Finished? && tx.commits {
      CommitKeepsTraceExactly(t1, c, CommitOf(tx, out.result));
    } else {
      IsolatedIsExact(t1, c.world);
    }
  }

  lemma CommitKeepsTraceExactly(t: Trace, c: Setting, op: Op)
    requires Isolated(t, c.world) && Refined(t, c.world)
    requires WellFormed(op) && OneCodePerHash(op, c.hash)
    ensures var t' := Advance(t, c.world, c.hash, Event(op, NO_FAULTS));
            && (Isolated(t', c.world) <==> SafeStep(t.db, c.world, op))
            && (ShowsCheckpoint(t', c.world) <==> SafeStep(t.db, c.world, op))
            && (Refined(t', c.world) <==> WritesFaithfully(t.db.cur, c.world, op, c.hash))
            && (Same(View(t'.db.cur, c.world), t'.model) <==> WritesFaithfully(t.db.cur, c.world, op, c.hash))
  {
    AdvanceKeepsIsolatedExactly(t, c.world, c.hash, Event(op, NO_FAULTS));
    AdvanceKeepsRefinedExactly(t, c.world, c.hash, Event(op, NO_FAULTS));
    StepKeepsOriginals(t.db, c.world, c.hash, NO_FAULTS, op);
    IsolatedIsExact(Advance(t, c.world, c.hash, Event(op, NO_FAULTS)), c.world);
  }

  /** Exactly: the two databases cannot be told apart and clones show the checkpoint, after every transaction,
      if and only if every commit fits. */
  lemma {:induction false} AllFitIsExact(sim: Sim, c: Setting, txs: seq<Tx>)
    requires InStep(sim, c) && AllSound(txs) && AlwaysOneCode(sim, c, txs)
    ensures AllFit(sim, c, txs) <==> AlwaysShown(sim, c, txs)
    decreases |txs|
  {
    IsolatedIsExact(sim.trace, c.world);
    if txs != [] {
      var next := Next(sim, c, txs[0]);
      NextIsExact(sim, c, txs[0]);
      if Fits(sim, c, txs[0]) {
        AllFitIsExact(next, c, txs[1..]);
      } else {
        assert !AlwaysShown(next, c, txs[1..]);
      }
    }
  }

  lemma {:induction false} SimulationStaysInStep(sim: Sim, c: Setting, txs: seq<Tx>)
    requires InStep(sim, c) && AllSound(txs) && AlwaysOneCode(sim, c, txs) && AllFit(sim, c, txs)
    ensures InStep(Simulate(sim, c, txs), c)
    ensures Simulate(sim, c, txs).trace.checkpoint == sim.trace.checkpoint
    decreases |txs|
  {
    if txs != [] {
      NextIsExact(sim, c, txs[0]);
      SimulationStaysInStep(Next(sim, c, txs[0]), c, txs[1..]);
    }
  }

  /** From any state in step, over any transactions that fit, under any faults: the cached simulator ends with
      the pools of the uncached one after the transactions that completed, and with a database that no reader
      can tell from it; and a clone over a backend `v` shows the checkpoint exactly if `v` answers as the
      backend of the simulation what the checkpoint does not answer by itself. */
  lemma {:induction false} SimulationRefines(sim: Sim, c: Setting, txs: seq<Tx>, v: World)
    requires InStep(sim, c) && AllSound(txs) && AlwaysOneCode(sim, c, txs) && AllFit(sim, c, txs)
    ensures var end := Simulate(sim, c, txs);
            var u := PlainSimulate(Plain(sim.trace.model, sim.modelPools), c, Completed(sim, c, txs));
            && end.pools == u.pools
            && Same(View(end.trace.db.cur, c.world), u.world)
            && (Same(View(Clone(end.trace.db).cur, v), sim.trace.checkpoint)
                <==> AgreeOutside(end.trace.db.orig, v, c.world))
  {
    SimulationStaysInStep(sim, c, txs);
    ModelIsPlain(sim, c, txs);
    AgreeingBackendsAreSame(Simulate(sim, c, txs).trace.db.orig, v, c.world);
  }

  // ---- where a simulation may start ----

  ghost predicate GoodRun(w: World, hash: Hasher, run: seq<Event>) {
    && AllWellFormed(run) && AllOneCode(run, hash)
    && SafeRun(w, hash, run) && FaithfulRun(w, hash, run)
  }

  /** A new simulator is in step, and so is one after any safe and faithful run. */
  lemma {:induction false} RunsStartInStep(c: Setting, run: seq<Event>, pools: PoolMap)
    requires AbsentIsZero(c.world) && GoodRun(c.world, c.hash, run)
    ensures InStep(Sim(Execute(c.world, c.hash, run), pools, pools), c)
  {
    SafeRunIsIsolated(c.world, c.hash, run);
    FaithfulRunIsRefined(c.world, c.hash, run);
  }

  /** The clone of a simulator: the checkpoint is all it knows. */
  function CloneOf(sim: Sim): Sim {
    Sim(Trace(Clone(sim.trace.db), sim.trace.checkpoint, sim.trace.checkpoint), sim.pools, sim.pools)
  }

  /** A clone, over a backend `v`, can be simulated on from the checkpoint exactly if `v` answers as the backend
      of the original what the checkpoint does not answer by itself. */
  lemma CloneStartsInStep(sim: Sim, c: Setting, v: World)
    requires InStep(sim, c)
    ensures InStep(CloneOf(sim), c.(world := v)) <==> AgreeOutside(sim.trace.db.orig, v, c.world)
    ensures Paired(CloneOf(sim).trace.db)
  {
    AgreeingBackendsAreSame(sim.trace.db.orig, v, c.world);
    if AgreeOutside(sim.trace.db.orig, v, c.world) {
      AgreementKeepsAbsentZero(sim.trace.db.orig, v, c.world);
    }
  }

  // ---- a seeded simulator ----

  /** A write of storage, which neither revives nor hides anything. */
  predicate IsPut(e: Event) {
    e.op.PutStorage? || e.op.PutSlot?
  }

  /** A run of writes that ends in the state `s`, with the bare backend still as its checkpoint. */
  ghost predicate Reaches(w: World, hash: Hasher, run: seq<Event>, s: State) {
    && GoodRun(w, hash, run)
    && Execute(w, hash, run).db == s
    && Execute(w, hash, run).checkpoint == w
    && Paired(s)
  }

  lemma PutIsGood(s: State, w: World, hash: Hasher, e: Event)
    requires IsPut(e) && Paired(s)
    ensures var (s', r) := Step(s, w, hash, e.faults, e.op);
            && (!r.Ok? ==> s' == s) && Paired(s')
            && WellFormed(e.op) && OneCodePerHash(e.op, hash) && !e.op.Sync?
            && SafeStep(s, w, e.op) && WritesFaithfully(s.cur, w, e.op, hash)
  {
  }

  lemma AppendPut(w: World, hash: Hasher, run: seq<Event>, s: State, e: Event)
    requires Reaches(w, hash, run, s) && IsPut(e)
    ensures Reaches(w, hash, run + [e], Step(s, w, hash, e.faults, e.op).0)
  {
    var more := run + [e];
    assert more[..|more| - 1] == run && more[|more| - 1] == e;
    PutIsGood(s, w, hash, e);
  }

  /** Seeding one pool is a run of one to three writes: an error ends it. */
  lemma SeedJobIsEvents(w: World, hash: Hasher, run: seq<Event>, s: State, layout: Layout, job: Job, net: Network, k: nat)
    returns (more: seq<Event>)
    requires Reaches(w, hash, run, s)
    ensures Reaches(w, hash, more, SeedJob(s, w, layout, job, net, k).0)
  {
    var e1 := Event(PutStorage(job.pair, PairStorage(job, layout)), net(k));
    AppendPut(w, hash, run, s, e1);
    more := run + [e1];
    var (s1, r1) := ReplaceStorage(s, w, net(k), job.pair, PairStorage(job, layout));
    if r1.Ok? {
      var i0, v0 := layout.balanceSlot(job.token0, job.pair), job.data.reserve0;
      var e2 := Event(PutSlot(job.token0.address, i0, v0), net(k + 1));
      AppendPut(w, hash, more, s1, e2);
      more := more + [e2];
      var (s2, r2) := InsertSlot(s1, w, net(k + 1), job.token0.address, i0, v0);
      if r2.Ok? {
        var i1, v1 := layout.balanceSlot(job.token1, job.pair), job.data.reserve1;
        var e3 := Event(PutSlot(job.token1.address, i1, v1), net(k + 2));
        AppendPut(w, hash, more, s2, e3);
        more := more + [e3];
      }
    }
  }

  /** Seeding, under any faults, is a run of writes from a new database. */
  lemma {:induction false} SeedingIsARun(w: World, hash: Hasher, layout: Layout, pools: PoolMap,
                                         order: seq<string>, net: Network)
    returns (run: seq<Event>)
    requires forall key <- order :: key in pools && pools[key].Seedable()
    ensures Reaches(w, hash, run, SeedInOrder(NEW_STATE, w, layout, pools, order, net))
    decreases |order|
  {
    if order == [] {
      run := [];
    } else {
      var n := |order| - 1;
      run := SeedingIsARun(w, hash, layout, pools, order[..n], net);
      if pools[order[n]].Seeds() {
        run := SeedJobIsEvents(w, hash, run, SeedInOrder(NEW_STATE, w, layout, pools, order[..n], net),
                               layout, JobOf(pools[order[n]]), net, 3 * n);
      }
    }
  }

  /** A seeded simulator starts in step, whatever faults the seeding met: what it simulates from then on is what
      an uncached database with the writes that succeeded over the backend would. Its checkpoint is the bare
      backend. */
  lemma SeededStartsInStep(c: Setting, layout: Layout, pools: PoolMap, order: seq<string>, net: Network)
    returns (sim: Sim)
    requires AbsentIsZero(c.world) && AllSeedable(pools) && Enumerates(order, pools.Keys)
    ensures InStep(sim, c) && sim.pools == pools
    ensures sim.trace.db == SeedInOrder(NEW_STATE, c.world, layout, pools, order, net)
    ensures sim.trace.checkpoint == c.world
    ensures Paired(sim.trace.db)
  {
    var run := SeedingIsARun(c.world, c.hash, layout, pools, order, net);
    RunsStartInStep(c, run, pools);
    sim := Sim(Execute(c.world, c.hash, run), pools, pools);
  }

  // ---- transactions that touch only what they read ----

  /** The program has asked for the account of `a`. */
  ghost predicate Asked<R>(p: Program<R>, history: seq<Answer>, a: Address) {
    exists k: nat :: k < |history| && p(history[..k]) == Move.Ask(Basic(a))
  }

  /** Whatever it is told, the program touches only accounts it asked for, also when it runs out of gas. */
  ghost predicate TouchesWhatItAsked(tx: Tx) {
    && (forall history: seq<Answer>, a: Address ::
          tx.program(history).Finish? && TouchedBy(tx.program(history).result.changes, a) ==> Asked(tx.program, history, a))
    && (forall history: seq<Answer>, a: Address ::
          |history| == tx.gas && TouchedBy(tx.halt.changes, a) ==> Asked(tx.program, history, a))
  }

  /** Every account is in both maps or in neither. */
  ghost predicate Paired(s: State) {
    s.orig.accounts.Keys == s.cur.accounts.Keys
  }

  lemma PairedIsCovered(s: State)
    requires Paired(s)
    ensures Covered(s)
  {
  }

  lemma ReadKeepsPaired(s: State, w: World, f: Faults, q: Query)
    requires Paired(s)
    ensures var (s', r) := Read(s, w, f, q);
            && Paired(s') && s.cur.accounts.Keys <= s'.cur.accounts.Keys
            && (q.Basic? && r.Ok? ==> q.address in s'.cur.accounts)
            && !r.Panic?
  {
    PairedIsCovered(s);
    ReadPanicsExactly(s, w, f, q);
    ReadCases(s, w, f, q);
  }

  /** What a program asked for is cached when it finishes, and it does not panic on the way. */
  lemma {:induction false} AskedIsCached<R>(p: Program<R>, s: State, w: World, net: Network,
                                            history: seq<Answer>, gas: nat)
    returns (final: seq<Answer>)
    requires Paired(s)
    requires forall a: Address :: Asked(p, history, a) ==> a in s.cur.accounts
    ensures var (s', out) := Run(p, s, w, net, history, gas);
            && Paired(s') && !out.Panic?
            && (out.Ok? ==> forall a: Address :: Asked(p, final, a) ==> a in s'.cur.accounts)
            && (out.Ok? && out.value.Some? ==> p(final) == Finish(out.value.value))
            && (out.Ok? && out.value.None? ==> |final| == |history| + gas)
    decreases gas
  {
    final := history;
    if p(history).Ask? && gas > 0 {
      var f, q := net(|history|), p(history).query;
      var (s', r) := Read(s, w, f, q);
      ReadKeepsPaired(s, w, f, q);
      if r.Ok? {
        AskedOneMore(p, history, r.value);
        final := AskedIsCached(p, s', w, net, history + [r.value], gas - 1);
      }
    }
  }

  lemma AskedOneMore<R>(p: Program<R>, history: seq<Answer>, answer: Answer)
    ensures forall a: Address :: Asked(p, history + [answer], a) ==> Asked(p, history, a) || p(history) == Move.Ask(Basic(a))
  {
    var more := history + [answer];
    forall a: Address | Asked(p, more, a) ensures Asked(p, history, a) || p(history) == Move.Ask(Basic(a)) {
      var k: nat :| k < |more| && p(more[..k]) == Move.Ask(Basic(a));
      if k < |history| {
        assert more[..k] == history[..k];
      } else {
        assert more[..k] == history;
      }
    }
  }

  /** A transaction that finishes touches only cached accounts. */
  lemma TouchedIsCached(t: Trace, c: Setting, tx: Tx)
    requires Paired(t.db)
    ensures var (s, out) := Ran(t, c, tx);
            && Paired(s) && !out.Panicked?
            && (TouchesWhatItAsked(tx) && out.Finished? ==>
                  forall a: Address :: TouchedBy(out.result.changes, a) ==> a in s.cur.accounts)
  {
    var (s, r) := Run(tx.program, t.db, c.world, tx.net, [], tx.gas);
    var final := AskedIsCached(tx.program, t.db, c.world, tx.net, [], tx.gas);
    assert Ran(t, c, tx) == (s, ToResult(r, tx.halt));
    if TouchesWhatItAsked(tx) && r.Ok? {
      var exec := if r.value.Some? then r.value.value else tx.halt;
      forall a: Address | TouchedBy(exec.changes, a) ensures a in s.cur.accounts {
        assert Asked(tx.program, final, a);
      }
    }
  }

  lemma CommitKeepsPaired(s: State, changes: Changes, order: seq<Address>, hash: Hasher)
    requires Paired(s) && Enumerates(order, changes.Keys)
    requires forall a: Address :: TouchedBy(changes, a) ==> a in s.cur.accounts
    ensures Paired(s.(cur := CommitInOrder(s.cur, changes, order, hash)))
  {
    CommitMeaning(s.cur, changes, order, hash);
    var accounts' := CommitInOrder(s.cur, changes, order, hash).accounts;
    assert forall a: Address :: a in accounts' <==> a in s.cur.accounts;
  }

  lemma NextKeepsPaired(sim: Sim, c: Setting, tx: Tx)
    requires Paired(sim.trace.db) && Sound(tx) && TouchesWhatItAsked(tx)
    ensures Paired(Next(sim, c, tx).trace.db)
  {
    var (s, out) := Ran(sim.trace, c, tx);
    TouchedIsCached(sim.trace, c, tx);
    if out.Finished? && tx.commits {
      var changes := out.result.changes;
      CommitKeepsPaired(s, changes, tx.order(changes), c.hash);
      assert Next(sim, c, tx).trace.db == s.(cur := CommitInOrder(s.cur, changes, tx.order(changes), c.hash));
    }
  }

  /** Transactions that touch only what they asked for never meet the failing unwrap, however many run, and
      whatever they revive or overwrite. */
  lemma {:induction false} SimulationNeverPanics(sim: Sim, c: Setting, txs: seq<Tx>, tx: Tx)
    requires Paired(sim.trace.db) && AllSound(txs)
    requires forall t <- txs :: TouchesWhatItAsked(t)
    ensures var end := Simulate(sim, c, txs);
            Paired(end.trace.db) && !Ran(end.trace, c, tx).1.Panicked?
    decreases |txs|
  {
    if txs == [] {
      TouchedIsCached(sim.trace, c, tx);
    } else {
      NextKeepsPaired(sim, c, txs[0]);
      SimulationNeverPanics(Next(sim, c, txs[0]), c, txs[1..], tx);
    }
  }

  // ---- simulations without faults ----

  ghost predicate FaultFreeTx(tx: Tx) {
    forall k: nat, q: Query :: tx.net(k)(q).None?
  }

  lemma FaultFreeTxCompletes(sim: Sim, c: Setting, tx: Tx)
    requires Paired(sim.trace.db) && FaultFreeTx(tx)
    ensures Ran(sim.trace, c, tx).1.Finished?
  {
    PairedIsCovered(sim.trace.db);
    RunDoesNotPanic(tx.program, sim.trace.db, c.world, tx.net, [], tx.gas);
  }

  /** Without faults a transaction returns its result on the uncached database, unless it commits a success with
      a Sync log that does not decode: then it returns an error. */
  lemma TransactionReturnsExactly(sim: Sim, c: Setting, tx: Tx)
    requires InStep(sim, c) && Paired(sim.trace.db) && FaultFreeTx(tx)
    ensures var exec := PlainResult(sim.trace.model, tx);
            Returned(tx, c.decode, Ran(sim.trace, c, tx).1)
            == if tx.commits && exec.success && exists log <- exec.logs :: IsSync(log) && c.decode(log.data).None?
               then BadLog else Finished(exec)
  {
    FaultFreeTxCompletes(sim, c, tx);
    SameResult(sim, c, tx);
    DecodableExactly(PlainResult(sim.trace.model, tx).logs, c.decode);
  }

  /** Any contract can emit such a log: the commit stands, and the caller gets an error. */
  lemma BadLogIsAnError(sim: Sim, c: Setting, tx: Tx)
    requires c.decode([]).None? && tx.commits && AllSound([tx])
    requires tx.program([]) == Finish(Execution(true, map[], [Log(1, [UNISWAP_V2_TOPIC], [])]))
    ensures Completed(sim, c, [tx]) == [tx] && Results(sim, c, [tx]) == [BadLog]
  {
    var log := Log(1, [UNISWAP_V2_TOPIC], []);
    assert EffectOf(log, c.decode).Undecodable?;
    assert Ran(sim.trace, c, tx).1 == Finished(Execution(true, map[], [log]));
    assert Decodable([log], c.decode) == [];
  }

  /** One transaction of the total form. */
  lemma NextIsPlain(sim: Sim, c: Setting, tx: Tx)
    requires InStep(sim, c) && Sound(tx) && OneCode(sim, c, tx) && Fits(sim, c, tx)
    requires Paired(sim.trace.db) && TouchesWhatItAsked(tx) && FaultFreeTx(tx)
    ensures var u, next := Plain(sim.trace.model, sim.pools), Next(sim, c, tx);
            && Ran(sim.trace, c, tx).1 == Finished(PlainResult(u.world, tx))
            && InStep(next, c) && Paired(next.trace.db)
            && Plain(next.trace.model, next.pools) == PlainNext(u, c, tx)
  {
    FaultFreeTxCompletes(sim, c, tx);
    SameResult(sim, c, tx);
    NextIsExact(sim, c, tx);
    NextKeepsPaired(sim, c, tx);
    assert Plain(Next(sim, c, tx).trace.model, Next(sim, c, tx).modelPools)
           == PlainNext(Plain(sim.trace.model, sim.modelPools), c, tx);
  }

  /** Without faults every transaction completes and returns what it returns on the uncached simulator. */
  lemma {:induction false} AllComplete(sim: Sim, c: Setting, txs: seq<Tx>)
    requires InStep(sim, c) && AllSound(txs) && AlwaysOneCode(sim, c, txs) && AllFit(sim, c, txs)
    requires Paired(sim.trace.db)
    requires forall tx <- txs :: TouchesWhatItAsked(tx) && FaultFreeTx(tx)
    ensures Completed(sim, c, txs) == txs
    ensures Results(sim, c, txs) == PlainResults(Plain(sim.trace.model, sim.pools), c, txs)
    decreases |txs|
  {
    if txs != [] {
      NextIsPlain(sim, c, txs[0]);
      AllComplete(Next(sim, c, txs[0]), c, txs[1..]);
    }
  }

  /** The total form: without faults, transactions that fit and touch only what they asked for all complete,
      return what they return on the uncached simulator, errors of logs included, and leave its pools and a
      database that no reader can tell from it. The uncached simulator knows nothing of the cache. */
  lemma {:induction false} SimulationIsPlain(sim: Sim, c: Setting, txs: seq<Tx>)
    requires InStep(sim, c) && AllSound(txs) && AlwaysOneCode(sim, c, txs) && AllFit(sim, c, txs)
    requires Paired(sim.trace.db)
    requires forall tx <- txs :: TouchesWhatItAsked(tx) && FaultFreeTx(tx)
    ensures var u, end := Plain(sim.trace.model, sim.pools), Simulate(sim, c, txs);
            && Results(sim, c, txs) == PlainResults(u, c, txs)
            && end.pools == PlainSimulate(u, c, txs).pools
            && Same(View(end.trace.db.cur, c.world), PlainSimulate(u, c, txs).world)
  {
    AllComplete(sim, c, txs);
    SimulationRefines(sim, c, txs, c.world);
  }

  // ---- the simulator object ----

  /** The object holds the cached side of a simulation. */
  ghost predicate Holds(revm: Revm, sim: Sim, c: Setting)
    reads revm, revm.db
  {
    && revm.db != null && revm.db.Value() == sim.trace.db && revm.pools == sim.pools
    && revm.db.db == c.world && revm.db.hashSlow == c.hash && revm.decode == c.decode
  }

  lemma SameCommit(s: State, c: Setting, tx: Tx, exec: Execution, order: seq<Address>)
    requires Sound(tx) && OneCodePerHash(CommitOf(tx, exec), c.hash) && Enumerates(order, exec.changes.Keys)
    ensures CommitInOrder(s.cur, exec.changes, order, c.hash)
            == CommitInOrder(s.cur, exec.changes, tx.order(exec.changes), c.hash)
  {
    CommitOrderIndependence(s.cur, exec.changes, c.hash);
  }

  /** A transaction on the object is a step of the simulation: dry by `Transact`, committed by
      `TransactCommit`, in whatever order that visits the changes. */
  method Submit(revm: Revm, tx: Tx, ghost sim: Sim, ghost c: Setting) returns (r: TxResult<Execution>)
    requires Holds(revm, sim, c) && Sound(tx) && OneCode(sim, c, tx)
    modifies revm`pools, revm.db
    ensures Holds(revm, Next(sim, c, tx), c)
    ensures r == Returned(tx, c.decode, Ran(sim.trace, c, tx).1)
  {
    if tx.commits {
      ghost var order;
      r, order := revm.TransactCommit(tx.program, tx.halt, tx.net, tx.gas);
      ghost var (s, out) := Ran(sim.trace, c, tx);
      if out.Finished? {
        SameCommit(s, c, tx, out.result, order);
      }
    } else {
      r := revm.Transact(tx.program, tx.halt, tx.net, tx.gas);
    }
  }
}
