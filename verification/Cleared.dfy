/** An account whose storage was cleared never shows a backend slot again. */
module Cleared {
  import opened Types
  import opened Layers
  import opened Transitions
  import opened Commits
  import opened Overlay
  import opened Runs

  /** The state after a run from any state. */
  ghost function After(s: State, w: World, hash: Hasher, run: seq<Event>): State
    requires AllWellFormed(run)
  {
    if run == [] then s
    else
      var n := |run| - 1;
      Step(After(s, w, hash, run[..n]), w, hash, run[n].faults, run[n].op).0
  }

  /** What an operation writes to a slot, if anything; clearing writes 0 to every slot it does not set. */
  function WrittenBy(op: Op, a: Address, i: U256): Option<U256> {
    match op
    case PutSlot(b, j, v) => if a == b && i == j then Some(v) else None
    case PutStorage(b, storage) =>
      if a != b then None else if i in storage then Some(storage[i]) else Some(0)
    case CommitBatch(changes, _) =>
      if a !in changes || !changes[a].touched then None
      else if i in changes[a].storage then Some(changes[a].storage[i].present)
      else if changes[a].created then Some(0)
      else None
    case _ => None
  }

  /** The last write of a run to a slot. */
  function LastWrite(run: seq<Event>, a: Address, i: U256): Option<U256> {
    if run == [] then None
    else
      var n := |run| - 1;
      if WrittenBy(run[n].op, a, i).Some? then WrittenBy(run[n].op, a, i) else LastWrite(run[..n], a, i)
  }

  ghost predicate Destroyed(op: Op, a: Address) {
    op.CommitBatch? && a in op.changes && Destroys(op.changes[a])
  }

  ghost predicate IsCleared(s: State, a: Address) {
    a in s.cur.accounts && s.cur.accounts[a].status.StorageCleared?
  }

  lemma ReadKeepsCleared(s: State, w: World, f: Faults, q: Query, a: Address)
    requires IsCleared(s, a)
    ensures var s' := Read(s, w, f, q).0;
            IsCleared(s', a) && s'.cur.accounts[a] == s.cur.accounts[a]
  {
  }

  lemma CommitKeepsCleared(s: State, hash: Hasher, op: Op, a: Address)
    requires op.CommitBatch? && Enumerates(op.order, op.changes.Keys)
    requires IsCleared(s, a) && !Destroyed(op, a)
    ensures var l' := CommitInOrder(s.cur, op.changes, op.order, hash);
            && a in l'.accounts
            && l'.accounts[a] == if TouchedBy(op.changes, a) then Committed(s.cur.accounts[a], op.changes[a], hash)
                                 else s.cur.accounts[a]
  {
    CommitMeaning(s.cur, op.changes, op.order, hash);
  }

  lemma StepKeepsCleared(s: State, w: World, hash: Hasher, f: Faults, op: Op, a: Address, i: U256)
    requires IsCleared(s, a) && WellFormed(op) && !Destroyed(op, a)
    ensures var s' := Step(s, w, hash, f, op).0;
            && IsCleared(s', a)
            && SlotAt(s'.cur, w, a, i)
               == if WrittenBy(op, a, i).Some? then WrittenBy(op, a, i).value else SlotAt(s.cur, w, a, i)
  {
    match op
    case Ask(q) => ReadKeepsCleared(s, w, f, q, a);
    case PutInfo(_, _) =>
    case PutSlot(_, _, _) =>
    case PutStorage(_, _) =>
    case CommitBatch(_, _) => CommitKeepsCleared(s, hash, op, a);
    case Sync =>
  }

  /** From any state, over any run that does not destroy a cleared account: every slot of it reads the
      last value written to it, or what it read before; no read of it asks the backend, fails or panics. */
  lemma {:induction false} ClearedForever(s: State, w: World, hash: Hasher, run: seq<Event>, a: Address,
                                          i: U256, f: Faults)
    requires IsCleared(s, a) && AllWellFormed(run)
    requires forall e <- run :: !Destroyed(e.op, a)
    ensures var s' := After(s, w, hash, run);
            && IsCleared(s', a)
            && Read(s', w, f, Slot(a, i))
               == (s', Ok(WordIs(if LastWrite(run, a, i).Some? then LastWrite(run, a, i).value else SlotAt(s.cur, w, a, i))))
    decreases |run|
  {
    if run != [] {
      var n := |run| - 1;
      ClearedForever(s, w, hash, run[..n], a, i, f);
      StepKeepsCleared(After(s, w, hash, run[..n]), w, hash, run[n].faults, run[n].op, a, i);
    }
  }
}
