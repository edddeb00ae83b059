/** The simulator: a database, the pools it keeps in step with the Sync logs, and its two ways of
    running a transaction. */
module Simulator {
  import opened Types
  import opened Layers
  import opened Transitions
  import opened Reads
  import opened Programs
  import opened Pools
  import opened StateDatabase

  /** topic0 of the pair's Sync event. */
  const UNISWAP_V2_TOPIC: B256 := 0x1c411e9a96e07124_1c2f21f7726b17ae_89e3cab4c78be50e_062b03a9fffbbad1

  datatype Log = Log(address: Address, topics: seq<B256>, data: Bytes)

  /** Decodes the data of a Sync log; `None` is a decoding error. */
  type SyncDecoder = Bytes -> Option<UniV2Data>

  type PoolMap = map<string, Pool>

  // ---- the key of a pool ----

  function HexDigit(d: nat): (c: char)
    requires d < 16
  {
    "0123456789abcdef"[d]
  }

  function HexDigits(n: nat, width: nat): (s: string)
    ensures |s| == width
  {
    if width == 0 then "" else HexDigits(n / 16, width - 1) + [HexDigit(n % 16)]
  }

  /** The lower-case hexadecimal rendering of an address. */
  function PoolKey(a: Address): string {
    "0x" + HexDigits(a, 40)
  }

  /** The value of a lower-case hexadecimal digit. */
  function DigitValue(c: char): Option<nat> {
    if '0' <= c <= '9' then Some(c as nat - '0' as nat)
    else if 'a' <= c <= 'f' then Some(c as nat - 'a' as nat + 10)
    else None
  }

  function HexValue(s: string): Option<nat> {
    if s == "" then Some(0)
    else match (HexValue(s[..|s| - 1]), DigitValue(s[|s| - 1]))
      case (Some(n), Some(d)) => Some(16 * n + d)
      case _ => None
  }

  lemma {:induction false} HexDigitsValue(n: nat, width: nat)
    requires n < Pow16(width)
    ensures HexValue(HexDigits(n, width)) == Some(n)
    decreases width
  {
    if width > 0 {
      var s := HexDigits(n, width);
      assert s[..width - 1] == HexDigits(n / 16, width - 1) && s[width - 1] == HexDigit(n % 16);
      DigitOf(n % 16);
      HexDigitsValue(n / 16, width - 1);
    }
  }

  lemma DigitOf(d: nat)
    requires d < 16
    ensures DigitValue(HexDigit(d)) == Some(d)
  {
  }

  /** The key of a pool is "0x" and 40 lower-case hexadecimal digits that spell the address. */
  lemma PoolKeySpellsAddress(a: Address)
    ensures |PoolKey(a)| == 42 && PoolKey(a)[..2] == "0x" && HexValue(PoolKey(a)[2..]) == Some(a)
  {
    Pow16Of40();
    HexDigitsValue(a, 40);
    assert PoolKey(a)[2..] == HexDigits(a, 40);
  }

  function Pow16(k: nat): nat {
    if k == 0 then 1 else 16 * Pow16(k - 1)
  }

  lemma {:induction false} HexDigitsInjective(m: nat, n: nat, width: nat)
    requires m < Pow16(width) && n < Pow16(width)
    requires HexDigits(m, width) == HexDigits(n, width)
    ensures m == n
    decreases width
  {
    if width > 0 {
      var x, y := HexDigits(m, width), HexDigits(n, width);
      assert x[..width - 1] == HexDigits(m / 16, width - 1) && y[..width - 1] == HexDigits(n / 16, width - 1);
      assert x[width - 1] == HexDigit(m % 16) && y[width - 1] == HexDigit(n % 16);
      HexDigitsInjective(m / 16, n / 16, width - 1);
    }
  }

  lemma Pow16Of40()
    ensures Pow16(40) == TWO_160
  {
    assert Pow16(10) == 0x100_0000_0000;
    assert Pow16(20) == 0x100_0000_0000 * 0x100_0000_0000;
    assert Pow16(30) == 0x100_0000_0000 * 0x100_0000_0000 * 0x100_0000_0000;
  }

  /** Logs of different addresses go to different pools. */
  lemma PoolKeyInjective(a: Address, b: Address)
    requires PoolKey(a) == PoolKey(b)
    ensures a == b
  {
    Pow16Of40();
    assert PoolKey(a)[2..] == HexDigits(a, 40) && PoolKey(b)[2..] == HexDigits(b, 40);
    HexDigitsInjective(a, b, 40);
  }

  // ---- logs ----

  /** The log of a Sync event. */
  predicate IsSync(log: Log) {
    log.topics != [] && log.topics[0] == UNISWAP_V2_TOPIC
  }

  /** What a log asks for: nothing, an error, or new reserves of a pool. */
  datatype LogEffect = Ignored | Undecodable | Reserves(key: string, data: UniV2Data)

  function EffectOf(log: Log, decode: SyncDecoder): LogEffect {
    if log.topics == [] || log.topics[0] != UNISWAP_V2_TOPIC then Ignored
    else match decode(log.data)
      case None => Undecodable
      case Some(data) => Reserves(PoolKey(log.address), data)
  }

  /** One log; an unknown pool is passed over. */
  function ApplyLog(pools: PoolMap, log: Log, decode: SyncDecoder): PoolMap {
    match EffectOf(log, decode)
    case Reserves(key, data) => if key in pools then pools[key := pools[key].(v2Data := Some(data))] else pools
    case _ => pools
  }

  function ApplyLogs(pools: PoolMap, logs: seq<Log>, decode: SyncDecoder): PoolMap {
    if logs == [] then pools
    else ApplyLog(ApplyLogs(pools, logs[..|logs| - 1], decode), logs[|logs| - 1], decode)
  }

  /** The logs before the first one that does not decode. */
  function Decodable(logs: seq<Log>, decode: SyncDecoder): (good: seq<Log>)
    ensures good <= logs
    ensures forall log <- good :: !EffectOf(log, decode).Undecodable?
    ensures good == logs || EffectOf(logs[|good|], decode).Undecodable?
  {
    if logs == [] || EffectOf(logs[0], decode).Undecodable? then []
    else [logs[0]] + Decodable(logs[1..], decode)
  }

  /** All logs are handled exactly if every Sync log decodes; otherwise those before the first one that does not. */
  lemma DecodableExactly(logs: seq<Log>, decode: SyncDecoder)
    ensures var good := Decodable(logs, decode);
            && good <= logs
            && (forall log <- good :: IsSync(log) ==> decode(log.data).Some?)
            && (good == logs <==> forall log <- logs :: IsSync(log) ==> decode(log.data).Some?)
            && (good != logs ==> IsSync(logs[|good|]) && decode(logs[|good|].data).None?)
  {
    var good := Decodable(logs, decode);
    if good != logs {
      assert EffectOf(logs[|good|], decode).Undecodable?;
    }
  }

  /** The reserves in the last Sync log of a pool that decodes. */
  function LastReserves(logs: seq<Log>, key: string, decode: SyncDecoder): Option<UniV2Data> {
    if logs == [] then None
    else
      var n := |logs| - 1;
      if IsSync(logs[n]) && PoolKey(logs[n].address) == key && decode(logs[n].data).Some? then decode(logs[n].data)
      else LastReserves(logs[..n], key, decode)
  }

  /** Each pool ends with the reserves of its last log, or as it was; no pool appears, disappears or
      changes otherwise. */
  lemma {:induction false} LogsSetLastReserves(pools: PoolMap, logs: seq<Log>, decode: SyncDecoder)
    ensures var pools' := ApplyLogs(pools, logs, decode);
            && pools'.Keys == pools.Keys
            && forall key <- pools ::
                 pools'[key] == match LastReserves(logs, key, decode)
                                case Some(data) => pools[key].(v2Data := Some(data))
                                case None => pools[key]
    decreases |logs|
  {
    if logs != [] {
      LogsSetLastReserves(pools, logs[..|logs| - 1], decode);
    }
  }

  /** Logs of other events are passed over, whatever their topics and data. */
  lemma {:induction false} OtherLogsAreIgnored(pools: PoolMap, logs: seq<Log>, decode: SyncDecoder)
    requires forall log <- logs :: log.topics != [] ==> log.topics[0] != UNISWAP_V2_TOPIC
    ensures ApplyLogs(pools, logs, decode) == pools && Decodable(logs, decode) == logs
    decreases |logs|
  {
    DecodableExactly(logs, decode);
    if logs != [] {
      var n := |logs| - 1;
      OtherLogsAreIgnored(pools, logs[..n], decode);
      assert logs[n] in logs;
    }
  }

  /** Logs handled in two calls are logs handled in one: only the last log of a pool over a whole run matters. */
  lemma {:induction false} LogsCompose(pools: PoolMap, first: seq<Log>, second: seq<Log>, decode: SyncDecoder)
    ensures ApplyLogs(ApplyLogs(pools, first, decode), second, decode) == ApplyLogs(pools, first + second, decode)
    decreases |second|
  {
    if second == [] {
      assert first + second == first;
    } else {
      var n := |second| - 1;
      LogsCompose(pools, first, second[..n], decode);
      assert (first + second)[..|first| + n] == first + second[..n];
    }
  }

  // ---- the simulator ----

  /** What the interpreter hands back. */
  datatype Execution = Execution(success: bool, changes: Changes, logs: seq<Log>)

  datatype TxResult<+R> = Finished(result: R) | DbFailed(error: DbError) | NoDatabase | Panicked | BadLog

  function ToResult<R>(r: Outcome<Option<R>>, halt: R): TxResult<R> {
    match r
    case Ok(Some(x)) => Finished(x)
    case Ok(None) => Finished(halt)
    case Err(e) => DbFailed(e)
    case Panic => Panicked
  }

  class Revm {
    var pools: PoolMap
    var block: U64  // the block number of the state; the database may have been opened at another block
    var db: StateDB?
    const decode: SyncDecoder

    constructor (pools: PoolMap, block: U64, db: StateDB?, decode: SyncDecoder)
      ensures this.pools == pools && this.block == block && this.db == db && this.decode == decode
    {
      this.pools, this.block, this.db, this.decode := pools, block, db, decode;
    }

    /** A second simulator from the checkpoint, over the chain opened at the block of the state; whether it is
        told to take a checkpoint first makes no difference. A program on it computes what it computes on the
        checkpoint's view over this simulator's own backend, if the two backends agree on the questions the
        checkpoint does not answer. */
    method Clone(syncOriginals: bool, chain: U64 -> World) returns (r: Revm)
      requires db != null
      ensures fresh(r) && r.db != null && fresh(r.db)
      ensures r.pools == pools && r.block == block && r.decode == decode
      ensures r.db.Value() == Transitions.Clone(db.Value())
      ensures r.db.db == chain(block) && r.db.hashSlow == db.hashSlow
      ensures Same(View(r.db.Current(), chain(block)), View(db.Originals(), db.db))
              <==> AgreeOutside(db.Originals(), chain(block), db.db)
    {
      var stateDb := new StateDB.FromOriginals(db, chain(block));
      if syncOriginals {
        stateDb.SyncOriginals();
      }
      r := new Revm(pools, block, stateDb, decode);
      AgreeingBackendsAreSame(db.Originals(), chain(block), db.db);
    }

    /** Fails at the first log that does not decode, after handling those before it. */
    method HandleLogs(logs: seq<Log>) returns (ok: bool)
      modifies this`pools
      ensures ok <==> forall log <- logs ::
                log.topics != [] && log.topics[0] == UNISWAP_V2_TOPIC ==> decode(log.data).Some?
      ensures ok <==> Decodable(logs, decode) == logs
      ensures pools == ApplyLogs(old(pools), Decodable(logs, decode), decode)
    {
      for k := 0 to |logs|
        invariant forall log <- logs[..k] :: !EffectOf(log, decode).Undecodable?
        invariant pools == ApplyLogs(old(pools), logs[..k], decode)
      {
        var log := logs[k];
        assert logs[..k + 1][..k] == logs[..k] && logs[..k + 1][k] == log;
        if log.topics != [] && log.topics[0] == UNISWAP_V2_TOPIC {
          var handled := HandleTopicV2(log.address, log.data);
          if !handled {
            HandledUpTo(logs, k, decode);
            return false;
          }
        }
      }
      HandledUpTo(logs, |logs|, decode);
      return true;
    }

    method HandleTopicV2(address: Address, data: Bytes) returns (ok: bool)
      modifies this`pools
      ensures ok <==> decode(data).Some?
      ensures pools == if ok && PoolKey(address) in old(pools)
                       then old(pools)[PoolKey(address) := old(pools)[PoolKey(address)].(v2Data := decode(data))]
                       else old(pools)
    {
      match decode(data) {
        case None => return false;
        case Some(reserves) =>
          var key := PoolKey(address);
          if key in pools {
            var pool := pools[key];
            pool := pool.(v2Data := Some(UniV2Data(reserves.reserve0, reserves.reserve1)));
            pools := pools[key := pool];
          }
          return true;
      }
    }

    /** The interpreter's loop: every question goes to the caching reads. */
    method Execute<R>(p: Program<R>, net: Network, gas: nat) returns (r: Outcome<Option<R>>)
      requires db != null
      modifies db
      ensures (db.Value(), r) == Run(p, old(db.Value()), db.db, net, [], gas)
    {
      var history, left := [], gas;
      while true
        invariant Run(p, db.Value(), db.db, net, history, left) == Run(p, old(db.Value()), db.db, net, [], gas)
        decreases left
      {
        match p(history) {
          case Finish(x) => return Ok(Some(x));
          case Ask(q) =>
            if left == 0 {
              return Ok(None);
            }
            var answer := db.Read(q, net(|history|));
            match answer {
              case Err(e) => return Err(e);
              case Panic => return Panic;
              case Ok(a) => history, left := history + [a], left - 1;
            }
        }
      }
    }

    /** Run for the result alone, which is the result on the view before the call; the call changes no answer
        of the view. `halt` is what the interpreter returns when its gas runs out. */
    method Transact<R>(p: Program<R>, halt: R, net: Network, gas: nat) returns (r: TxResult<R>)
      modifies db
      ensures db == null ==> r.NoDatabase?
      ensures db != null ==>
                var (s, out) := Run(p, old(db.Value()), db.db, net, [], gas);
                db.Value() == s && r == ToResult(out, halt)
      ensures db != null ==>
                var out := Run(p, old(db.Value()), db.db, net, [], gas).1;
                && (out.Err? ==> r == DbFailed(out.error)) && (out.Panic? ==> r == Panicked)
                && (out.Ok? ==> r == Finished(if out.value.Some? then out.value.value else halt))
      ensures db != null && AbsentIsZeroOutside(old(db.Current()), db.db) ==>
                var view := View(old(db.Current()), db.db);
                && Same(View(db.Current(), db.db), view)
                && (r.Finished? ==> r == ToResult(Ok(RunRef(p, view, [], gas)), halt))
    {
      if db == null {
        return NoDatabase;
      }
      ghost var before := db.Value();
      var out := Execute(p, net, gas);
      if AbsentIsZeroOutside(before.cur, db.db) {
        RunKeepsView(p, before, db.db, net, [], gas);
        RunAnswersView(p, before, db.db, net, [], gas);
      }
      return ToResult(out, halt);
    }

    /** Run and commit, then handle the logs of a success. A log that does not decode is reported after
        the commit, which stands. */
    method TransactCommit(p: Program<Execution>, halt: Execution, net: Network, gas: nat)
      returns (r: TxResult<Execution>, ghost order: seq<Address>)
      modifies this`pools, db
      ensures db == null ==> r.NoDatabase? && pools == old(pools)
      ensures db != null ==>
                var (s, out) := Run(p, old(db.Value()), db.db, net, [], gas);
                var ran := ToResult(out, halt);
                if ran.Finished? then
                  var exec := ran.result;
                  && Enumerates(order, exec.changes.Keys)
                  && db.Value() == s.(cur := CommitInOrder(s.cur, exec.changes, order, db.hashSlow))
                  && (if exec.success then
                        && pools == ApplyLogs(old(pools), Decodable(exec.logs, decode), decode)
                        && r == (if Decodable(exec.logs, decode) == exec.logs then ran else BadLog)
                      else pools == old(pools) && r == ran)
                else db.Value() == s && pools == old(pools) && r == ran
      ensures db != null ==>
                var out := Run(p, old(db.Value()), db.db, net, [], gas).1;
                && (out.Err? ==> r == DbFailed(out.error)) && (out.Panic? ==> r == Panicked)
                && (out.Ok? ==>
                      var exec := if out.value.Some? then out.value.value else halt;
                      r == if exec.success && exists log <- exec.logs :: IsSync(log) && decode(log.data).None?
                           then BadLog else Finished(exec))
    {
      order := [];
      if db == null {
        return NoDatabase, order;
      }
      var out := Execute(p, net, gas);
      r := ToResult(out, halt);
      if r.Finished? {
        var exec := r.result;
        order := db.Commit(exec.changes);
        DecodableExactly(exec.logs, decode);
        if exec.success {
          var ok := HandleLogs(exec.logs);
          if !ok {
            r := BadLog;
          }
        }
      }
    }
  }

  /** The logs handled when the loop stops at `k`. */
  lemma HandledUpTo(logs: seq<Log>, k: nat, decode: SyncDecoder)
    requires k <= |logs| && forall log <- logs[..k] :: !EffectOf(log, decode).Undecodable?
    requires k < |logs| ==> EffectOf(logs[k], decode).Undecodable?
    ensures Decodable(logs, decode) == logs[..k]
    ensures k == |logs| <==> forall log <- logs :: IsSync(log) ==> decode(log.data).Some?
    ensures k == |logs| ==> logs[..k] == logs
  {
    DecodableIs(logs, k, decode);
    DecodableExactly(logs, decode);
  }

  lemma {:induction false} DecodableIs(logs: seq<Log>, k: nat, decode: SyncDecoder)
    requires k <= |logs| && forall log <- logs[..k] :: !EffectOf(log, decode).Undecodable?
    requires k < |logs| ==> EffectOf(logs[k], decode).Undecodable?
    ensures Decodable(logs, decode) == logs[..k]
    decreases k
  {
    if k > 0 {
      assert logs[0] in logs[..k];
      assert logs[1..][..k - 1] == logs[..k][1..];
      DecodableIs(logs[1..], k - 1, decode);
    }
  }
}
