/** The interpreter as an arbitrary adaptive reader: its next question depends on all answers so far,
    and it ends with a result or out of gas. */
module Programs {
  import opened Types
  import opened Layers
  import opened Transitions
  import opened Reads

  datatype Move<+R> = Ask(query: Query) | Finish(result: R)

  /** The next move after the answers received so far. */
  type Program<!R> = seq<Answer> -> Move<R>

  /** The run against a fixed total database; `None` when the gas runs out. */
  function RunRef<R>(p: Program<R>, w: World, history: seq<Answer>, gas: nat): Option<R>
    decreases gas
  {
    match p(history)
    case Finish(x) => Some(x)
    case Ask(q) => if gas == 0 then None else RunRef(p, w, history + [w.Get(q)], gas - 1)
  }

  /** The run against the caching reads, each of which may change the database. */
  function Run<R>(p: Program<R>, s: State, w: World, net: Network, history: seq<Answer>, gas: nat)
    : (State, Outcome<Option<R>>)
    decreases gas
  {
    match p(history)
    case Finish(x) => (s, Ok(Some(x)))
    case Ask(q) =>
      if gas == 0 then (s, Ok(None))
      else
        var (s', r) := Read(s, w, net(|history|), q);
        match r
        case Ok(answer) => Run(p, s', w, net, history + [answer], gas - 1)
        case Err(e) => (s', Err(e))
        case Panic => (s', Panic)
  }

  lemma {:induction false} SameWorldsSameRun<R>(p: Program<R>, v: World, w: World, history: seq<Answer>, gas: nat)
    requires Same(v, w)
    ensures RunRef(p, v, history, gas) == RunRef(p, w, history, gas)
    decreases gas
  {
    if p(history).Ask? && gas > 0 {
      SameWorldsSameRun(p, v, w, history + [w.Get(p(history).query)], gas - 1);
    }
  }

  /** What every read keeps, every program keeps. */
  lemma {:induction false} RunKeeps<R>(p: Program<R>, s: State, w: World, net: Network, history: seq<Answer>,
                                       gas: nat,
                                       inv: State -> bool)
    requires inv(s)
    requires forall t: State, f: Faults, q: Query :: inv(t) ==> inv(Read(t, w, f, q).0)
    ensures inv(Run(p, s, w, net, history, gas).0)
    decreases gas
  {
    if p(history).Ask? && gas > 0 {
      var f, q := net(|history|), p(history).query;
      var (s', r) := Read(s, w, f, q);
      assert inv(Read(s, w, f, q).0);
      if r.Ok? {
        RunKeeps(p, s', w, net, history + [r.value], gas - 1, inv);
      }
    }
  }

  /** Running a program changes no answer of the view. */
  lemma RunKeepsView<R>(p: Program<R>, s: State, w: World, net: Network, history: seq<Answer>, gas: nat)
    requires AbsentIsZeroOutside(s.cur, w)
    ensures var s' := Run(p, s, w, net, history, gas).0;
            Same(View(s'.cur, w), View(s.cur, w)) && AbsentIsZeroOutside(s'.cur, w)
  {
    var inv := (t: State) => Same(View(t.cur, w), View(s.cur, w)) && AbsentIsZeroOutside(t.cur, w);
    forall t: State, f: Faults, q: Query | inv(t) ensures inv(Read(t, w, f, q).0) {
      ReadKeepsView(t, w, f, q);
    }
    RunKeeps(p, s, w, net, history, gas, inv);
  }

  /** Running a program from a safe state changes no answer of the checkpoint, and leaves it safe. */
  lemma RunKeepsCheckpoint<R>(p: Program<R>, s: State, w: World, net: Network, history: seq<Answer>, gas: nat)
    requires AbsentIsZeroOutside(s.cur, w) && CheckpointSafe(s, w)
    ensures var s' := Run(p, s, w, net, history, gas).0;
            CheckpointSafe(s', w) && Same(View(s'.orig, w), View(s.orig, w))
  {
    var inv := (t: State) =>
      AbsentIsZeroOutside(t.cur, w) && CheckpointSafe(t, w) && Same(View(t.orig, w), View(s.orig, w));
    forall t: State, f: Faults, q: Query | inv(t) ensures inv(Read(t, w, f, q).0) {
      ReadKeepsView(t, w, f, q);
      ReadKeepsCheckpoint(t, w, f, q);
    }
    RunKeeps(p, s, w, net, history, gas, inv);
  }

  lemma WarmedIsTransitive(s: State, s': State, s'': State, w: World)
    requires Warmed(s, s', w) && Warmed(s', s'', w)
    requires Same(View(s''.cur, w), View(s.cur, w))
    ensures Warmed(s, s'', w)
  {
    forall a | a in s''.cur.accounts && a !in s.cur.accounts ensures Fresh(s''.cur.accounts[a], w, a) {
      if a in s'.cur.accounts {
        assert Fresh(s'.cur.accounts[a], w, a);
        forall i | i in s''.cur.accounts[a].storage
          ensures s''.cur.accounts[a].storage[i] == w.slot(a, i)
        {
          assert View(s''.cur, w).slot(a, i) == View(s.cur, w).slot(a, i);
        }
      }
    }
  }

  /** Running a program adds backend entries to the cache and nothing else. */
  lemma RunOnlyWarms<R>(p: Program<R>, s: State, w: World, net: Network, history: seq<Answer>, gas: nat)
    requires AbsentIsZeroOutside(s.cur, w)
    ensures Warmed(s, Run(p, s, w, net, history, gas).0, w)
  {
    var inv := (t: State) =>
      Warmed(s, t, w) && Same(View(t.cur, w), View(s.cur, w)) && AbsentIsZeroOutside(t.cur, w);
    forall t: State, f: Faults, q: Query | inv(t) ensures inv(Read(t, w, f, q).0) {
      ReadKeepsView(t, w, f, q);
      ReadOnlyWarms(t, w, f, q);
      WarmedIsTransitive(s, t, Read(t, w, f, q).0, w);
    }
    RunKeeps(p, s, w, net, history, gas, inv);
  }

  /** A program that runs on the caching reads, under whatever faults, computes what it computes on the
      view at its start. */
  lemma {:induction false} RunAnswersView<R>(p: Program<R>, s: State, w: World, net: Network,
                                             history: seq<Answer>, gas: nat)
    requires AbsentIsZeroOutside(s.cur, w)
    ensures var r := Run(p, s, w, net, history, gas).1;
            r.Ok? ==> r.value == RunRef(p, View(s.cur, w), history, gas)
    decreases gas
  {
    if p(history).Ask? && gas > 0 {
      var f, q := net(|history|), p(history).query;
      var (s', r) := Read(s, w, f, q);
      ReadAnswersView(s, w, f, q);
      if r.Ok? {
        ReadKeepsView(s, w, f, q);
        RunAnswersView(p, s', w, net, history + [r.value], gas - 1);
        SameWorldsSameRun(p, View(s'.cur, w), View(s.cur, w), history + [r.value], gas - 1);
      }
    }
  }

  /** On a covered database no program panics, and one that meets no fault finishes. */
  lemma {:induction false} RunDoesNotPanic<R>(p: Program<R>, s: State, w: World, net: Network,
                                              history: seq<Answer>, gas: nat)
    requires Covered(s)
    ensures var r := Run(p, s, w, net, history, gas).1;
            !r.Panic? && ((forall k, q: Query :: net(k)(q).None?) ==> r.Ok?)
    decreases gas
  {
    if p(history).Ask? && gas > 0 {
      var f, q := net(|history|), p(history).query;
      var (s', r) := Read(s, w, f, q);
      ReadPanicsExactly(s, w, f, q);
      ReadKeepsCovered(s, w, f, q);
      if r.Ok? {
        RunDoesNotPanic(p, s', w, net, history + [r.value], gas - 1);
      }
    }
  }

  /** A run fails only with an error that the backend met it with. */
  lemma {:induction false} RunFailsOnFaults<R>(p: Program<R>, s: State, w: World, net: Network,
                                               history: seq<Answer>, gas: nat)
    ensures var r := Run(p, s, w, net, history, gas).1;
            r.Err? ==> exists k: nat, q: Query :: |history| <= k < |history| + gas && net(k)(q) == Some(r.error)
    decreases gas
  {
    if p(history).Ask? && gas > 0 {
      var f, q := net(|history|), p(history).query;
      var (s', r) := Read(s, w, f, q);
      match r
      case Err(e) => ReadFailsExactly(s, w, f, q, e);
      case Ok(answer) => RunFailsOnFaults(p, s', w, net, history + [answer], gas - 1);
      case Panic =>
    }
  }

  lemma RunKeepsAnswer<R>(p: Program<R>, s: State, w: World, net: Network, history: seq<Answer>, gas: nat, q: Query)
    requires Local(s.cur, q)
    ensures var s' := Run(p, s, w, net, history, gas).0;
            Local(s'.cur, q) && LocalAnswer(s'.cur, q) == LocalAnswer(s.cur, q)
  {
    var inv := (t: State) => Local(t.cur, q) && LocalAnswer(t.cur, q) == LocalAnswer(s.cur, q);
    forall t: State, f: Faults, q': Query | inv(t) ensures inv(Read(t, w, f, q').0) {
      if Read(t, w, f, q').1.Ok? {
        ReadLearnsExactly(t, w, f, q', q);
      } else {
        ReadPanicsExactly(t, w, f, q');
        ReadCases(t, w, f, q');
      }
    }
    RunKeeps(p, s, w, net, history, gas, inv);
  }

  /** Replay: a program that finished once needs the backend no more. Run again on the database it left, over any
      backend and under any faults, it finishes with the same result and changes nothing. */
  lemma {:induction false} RunReplays<R>(p: Program<R>, s: State, w: World, net: Network, v: World, net': Network,
                                         history: seq<Answer>, gas: nat)
    requires Run(p, s, w, net, history, gas).1.Ok?
    ensures var (s', r) := Run(p, s, w, net, history, gas);
            Run(p, s', v, net', history, gas) == (s', r)
    decreases gas
  {
    if p(history).Ask? && gas > 0 {
      var f, q := net(|history|), p(history).query;
      var (s1, answer) := Read(s, w, f, q);
      var s' := Run(p, s, w, net, history, gas).0;
      ReadCaches(s, w, f, v, net'(|history|), q);
      RunKeepsAnswer(p, s1, w, net, history + [answer.value], gas - 1, q);
      assert Read(s', v, net'(|history|), q) == (s', answer);
      RunReplays(p, s1, w, net, v, net', history + [answer.value], gas - 1);
    }
  }

  /** `transact` is repeatable: whatever ran before, and however it ended, a program that finishes
      returns what it would have returned on the untouched database. */
  lemma TransactIsRepeatable<R, Q>(first: Program<Q>, p: Program<R>, s: State, w: World,
                                   net1: Network, net2: Network, gas1: nat, gas: nat)
    requires AbsentIsZeroOutside(s.cur, w)
    ensures var s1 := Run(first, s, w, net1, [], gas1).0;
            var r1, r := Run(p, s1, w, net2, [], gas).1, Run(p, s, w, NO_OUTAGE, [], gas).1;
            && (r1.Ok? && r.Ok? ==> r1 == r)
            && (Covered(s) ==> r.Ok?)
  {
    var s1 := Run(first, s, w, net1, [], gas1).0;
    RunKeepsView(first, s, w, net1, [], gas1);
    RunAnswersView(p, s1, w, net2, [], gas);
    RunAnswersView(p, s, w, NO_OUTAGE, [], gas);
    SameWorldsSameRun(p, View(s.cur, w), View(s1.cur, w), [], gas);
    if Covered(s) {
      RunDoesNotPanic(p, s, w, NO_OUTAGE, [], gas);
    }
  }
}
