/** Quotes run on copies of one snapshot, interleaved in any way, against quotes run one after the other
    on the warm cache itself. */
module Parallel {
  import opened Types
  import opened Layers
  import opened Transitions
  import opened Programs
  import opened Snapshot

  /** One task: its own copy of the snapshot, the answers so far, and the gas left. */
  datatype Task = Task(db: InMemoryDB, history: seq<Answer>, left: nat)

  /** How often a task is polled. */
  function Polls(schedule: seq<nat>, k: nat): nat {
    if schedule == [] then 0
    else Polls(schedule[..|schedule| - 1], k) + if schedule[|schedule| - 1] == k then 1 else 0
  }

  /** One question to a task's own database. */
  method Answered(db: InMemoryDB, hash: Hasher, q: Query) returns (answer: Answer)
    requires CollisionFree(db, hash)
    ensures answer == MemWorld(db, hash).Get(q)
  {
    match q {
      case Basic(a) => return InfoIs(if a in db.accounts then Some(db.accounts[a]) else None);
      case Slot(a, i) => return WordIs(if (a, i) in db.storage then db.storage[(a, i)] else 0);
      case Code(h) =>
        var code := CodeByHash(db, hash, h);
        return CodeIs(code);
      case BlockHash(_) => return WordIs(0);
    }
  }

  /** Let one task run up to its next question or its end. */
  method Poll<R>(p: Program<R>, task: Task, hash: Hasher) returns (task': Task, result: Option<Option<R>>)
    requires CollisionFree(task.db, hash)
    ensures var w := MemWorld(task.db, hash);
            match result
            case Some(x) => x == RunRef(p, w, task.history, task.left)
            case None =>
              && task'.db == task.db && task'.left == task.left - 1
              && RunRef(p, w, task'.history, task'.left) == RunRef(p, w, task.history, task.left)
  {
    task' := task;
    match p(task.history) {
      case Finish(x) => return task, Some(Some(x));
      case Ask(q) =>
        if task.left == 0 {
          return task, Some(None);
        }
        var answer := Answered(task.db, hash, q);
        return task.(history := task.history + [answer], left := task.left - 1), None;
    }
  }

  method Spawn(count: nat, gas: nat, snapshot: InMemoryDB) returns (futs: seq<Task>)
    ensures |futs| == count && forall k :: 0 <= k < count ==> futs[k] == Task(snapshot, [], gas)
  {
    futs := [];
    for k := 0 to count
      invariant |futs| == k && forall i :: 0 <= i < k ==> futs[i] == Task(snapshot, [], gas)
    {
      futs := futs + [Task(snapshot, [], gas)];
    }
  }

  /** Start every task on a copy of the snapshot and drain the results as they come, up to the first task that
      ended in an error. The schedule says which task runs next, up to its next question or its end; `polls` is
      how much of it was used. */
  method RunParallel<R>(tasks: seq<Program<R>>, gas: nat, snapshot: InMemoryDB, hash: Hasher,
                        failed: Option<R> -> bool, schedule: seq<nat>)
    returns (results: map<nat, Option<R>>, failure: Option<nat>, ghost polls: nat)
    requires CollisionFree(snapshot, hash)
    ensures var w := MemWorld(snapshot, hash);
            && (forall k <- results :: k < |tasks| && results[k] == RunRef(tasks[k], w, [], gas) && !failed(results[k]))
            && (failure.Some? ==> failure.value < |tasks| && failure.value !in results
                                  && failed(RunRef(tasks[failure.value], w, [], gas)))
    ensures polls <= |schedule|
    ensures if failure.Some? then polls > 0 && schedule[polls - 1] == failure.value else polls == |schedule|
    ensures forall k: nat :: k < |tasks| && Polls(schedule[..polls], k) > gas ==> k in results || failure == Some(k)
  {
    ghost var want := seq(|tasks|, k requires 0 <= k < |tasks| => RunRef(tasks[k], MemWorld(snapshot, hash), [], gas));
    var futs := Spawn(|tasks|, gas, snapshot);
    results := map[];
    for n := 0 to |schedule|
      invariant |futs| == |tasks|
      invariant forall k <- results :: k < |tasks| && results[k] == want[k] && !failed(results[k])
      invariant forall k: nat :: k < |tasks| ==> futs[k].db == snapshot
      invariant forall k: nat :: k < |tasks| && k !in results ==>
                  && futs[k].left + Polls(schedule[..n], k) == gas
                  && RunRef(tasks[k], MemWorld(snapshot, hash), futs[k].history, futs[k].left) == want[k]
    {
      var k := schedule[n];
      assert schedule[..n + 1][..n] == schedule[..n];
      if k < |tasks| && k !in results {
        var fut, result := Poll(tasks[k], futs[k], hash);
        if result.None? {
          futs := futs[k := fut];
        } else if failed(result.value) {
          return results, Some(k), n + 1;
        } else {
          results := results[k := result.value];
        }
      }
    }
    assert schedule[..|schedule|] == schedule;
    return results, None, |schedule|;
  }

  /** The same tasks one after the other on the caching database, each under its own faults. */
  function RunSerial<R>(tasks: seq<Program<R>>, s: State, w: World, nets: nat -> Network, gas: nat)
    : (State, seq<Outcome<Option<R>>>)
  {
    if tasks == [] then (s, [])
    else
      var n := |tasks| - 1;
      var (s1, done) := RunSerial(tasks[..n], s, w, nets, gas);
      var (s2, r) := Run(tasks[n], s1, w, nets(n), [], gas);
      (s2, done + [r])
  }

  /** The task asks only what the snapshot answers as the cache does. */
  ghost predicate StaysHot<R>(p: Program<R>, src: Layer, hash: Hasher, history: seq<Answer>, gas: nat)
    decreases gas
  {
    match p(history)
    case Finish(_) => true
    case Ask(q) =>
      gas > 0 ==> Hot(src, hash, q) && StaysHot(p, src, hash, history + [LocalAnswer(src, q)], gas - 1)
  }

  /** Such a task needs nothing from the backing database, changes nothing, and computes on the snapshot
      what it computes on the cache. */
  lemma {:induction false} HotTask<R>(p: Program<R>, s: State, w: World, net: Network, hash: Hasher,
                                      history: seq<Answer>, gas: nat)
    requires StaysHot(p, s.cur, hash, history, gas) && CollisionFree(SnapshotOf(s.cur), hash)
    ensures Run(p, s, w, net, history, gas)
            == (s, Ok(RunRef(p, MemWorld(SnapshotOf(s.cur), hash), history, gas)))
    decreases gas
  {
    if p(history).Ask? && gas > 0 {
      var q := p(history).query;
      HotAnswers(s.cur, w, hash, q);
      LocalReadChangesNothing(s, w, net(|history|), q);
      HotTask(p, s, w, net, hash, history + [LocalAnswer(s.cur, q)], gas - 1);
    }
  }

  lemma LocalReadChangesNothing(s: State, w: World, f: Faults, q: Query)
    requires Local(s.cur, q)
    ensures Read(s, w, f, q) == (s, Ok(LocalAnswer(s.cur, q)))
  {
  }

  /** Parallel equals serial: whatever the schedule, the faults and the order in which results arrive, a
      task that finishes in parallel has its serial result, and serially every task finishes. */
  lemma {:induction false} ParallelEqualsSerial<R>(tasks: seq<Program<R>>, s: State, w: World, nets: nat -> Network,
                                                   gas: nat, hash: Hasher, results: map<nat, Option<R>>)
    requires CollisionFree(SnapshotOf(s.cur), hash)
    requires forall p <- tasks :: StaysHot(p, s.cur, hash, [], gas)
    requires forall k <- results :: k < |tasks| && results[k] == RunRef(tasks[k], MemWorld(SnapshotOf(s.cur), hash), [], gas)
    ensures var (s', serial) := RunSerial(tasks, s, w, nets, gas);
            && s' == s && |serial| == |tasks|
            && (forall r <- serial :: r.Ok?)
            && forall k <- results :: serial[k] == Ok(results[k])
  {
    SerialOnSnapshot(tasks, s, w, nets, gas, hash);
  }

  lemma {:induction false} SerialOnSnapshot<R>(tasks: seq<Program<R>>, s: State, w: World,
                                               nets: nat -> Network, gas: nat, hash: Hasher)
    requires CollisionFree(SnapshotOf(s.cur), hash)
    requires forall p <- tasks :: StaysHot(p, s.cur, hash, [], gas)
    ensures var (s', serial) := RunSerial(tasks, s, w, nets, gas);
            && s' == s && |serial| == |tasks|
            && forall k: nat :: k < |tasks| ==> serial[k] == Ok(RunRef(tasks[k], MemWorld(SnapshotOf(s.cur), hash), [], gas))
    decreases |tasks|
  {
    if tasks != [] {
      var n := |tasks| - 1;
      SerialOnSnapshot(tasks[..n], s, w, nets, gas, hash);
      HotTask(tasks[n], s, w, nets(n), hash, [], gas);
    }
  }

  /** The whole path: snapshot a warm cache, run in parallel, and compare with the cache itself. Results are
      serial results, an error is that of a task that fails serially too, and if every task was polled often
      enough, the parallel run fails exactly if some serial task does. */
  method SnapshotParallel<R>(tasks: seq<Program<R>>, gas: nat, s: State, hash: Hasher,
                             failed: Option<R> -> bool, schedule: seq<nat>,
                             ghost w: World, ghost nets: nat -> Network)
    returns (results: map<nat, Option<R>>, failure: Option<nat>)
    requires CollisionFree(SnapshotOf(s.cur), hash)
    requires forall p <- tasks :: StaysHot(p, s.cur, hash, [], gas)
    ensures var serial := RunSerial(tasks, s, w, nets, gas).1;
            && |serial| == |tasks| && (forall r <- serial :: r.Ok?)
            && (forall k <- results :: k < |tasks| && serial[k] == Ok(results[k]) && !failed(results[k]))
            && (failure.Some? ==> failure.value < |tasks| && failed(serial[failure.value].value))
            && ((forall k: nat :: k < |tasks| ==> Polls(schedule, k) > gas) ==>
                  && (failure.None? <==> forall r <- serial :: !failed(r.value))
                  && (failure.None? ==> forall k: nat :: k < |tasks| ==> k in results))
  {
    var snapshot := FromCacheDb(s.cur);
    ghost var polls;
    results, failure, polls := RunParallel(tasks, gas, snapshot, hash, failed, schedule);
    SerialOnSnapshot(tasks, s, w, nets, gas, hash);
    ParallelEqualsSerial(tasks, s, w, nets, gas, hash, results);
    assert schedule[..|schedule|] == schedule;
  }
}
