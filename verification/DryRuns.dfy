/** A program run for its result alone, before a batch is committed. */
module DryRuns {
  import opened Types
  import opened Layers
  import opened Transitions
  import opened Reads
  import opened Commits
  import opened Programs

  /** The slot of an account held in the cache. */
  function SlotIn(acc: DbAccount, w: World, a: Address, i: U256): U256 {
    if i in acc.storage then acc.storage[i] else if acc.ReadsThrough() then w.slot(a, i) else 0
  }

  /** A change has one effect on an account and on the same account warmed by reads. */
  lemma WarmAccountsCommitAlike(s: State, s1: State, w: World, hash: Hasher, ch: Change, a: Address, i: U256)
    requires Warmed(s, s1, w) && ch.touched
    requires SlotAt(s1.cur, w, a, i) == SlotAt(s.cur, w, a, i)
    requires a !in s.cur.accounts && w.info(a).None? ==> w.slot(a, i) == 0
    ensures var acc := Committed(AccountOrDefault(s.cur.accounts, a), ch, hash);
            var acc1 := Committed(AccountOrDefault(s1.cur.accounts, a), ch, hash);
            acc1.Info() == acc.Info() && SlotIn(acc1, w, a, i) == SlotIn(acc, w, a, i)
  {
    if a in s1.cur.accounts && a !in s.cur.accounts {
      assert Fresh(s1.cur.accounts[a], w, a);
    }
  }

  lemma DryRunKeepsAccounts(s: State, s1: State, w: World, hash: Hasher, changes: Changes,
                            order: seq<Address>, order1: seq<Address>, a: Address, i: U256)
    requires Same(View(s1.cur, w), View(s.cur, w)) && Warmed(s, s1, w) && AbsentIsZeroOutside(s.cur, w)
    requires Enumerates(order, changes.Keys) && Enumerates(order1, changes.Keys)
    ensures var l, l1 := CommitInOrder(s.cur, changes, order, hash), CommitInOrder(s1.cur, changes, order1, hash);
            InfoAt(l1, w, a) == InfoAt(l, w, a) && SlotAt(l1, w, a, i) == SlotAt(l, w, a, i)
  {
    var l, l1 := CommitInOrder(s.cur, changes, order, hash), CommitInOrder(s1.cur, changes, order1, hash);
    assert InfoAt(s1.cur, w, a) == InfoAt(s.cur, w, a) by {
      assert View(s1.cur, w).info(a) == View(s.cur, w).info(a);
    }
    assert SlotAt(s1.cur, w, a, i) == SlotAt(s.cur, w, a, i) by {
      assert View(s1.cur, w).slot(a, i) == View(s.cur, w).slot(a, i);
    }
    CommittedAccount(s.cur, changes, order, hash, a);
    CommittedAccount(s1.cur, changes, order1, hash, a);
    if TouchedBy(changes, a) {
      WarmAccountsCommitAlike(s, s1, w, hash, changes[a], a, i);
    }
  }

  lemma CommittedAccount(l: Layer, changes: Changes, order: seq<Address>, hash: Hasher, a: Address)
    requires Enumerates(order, changes.Keys)
    ensures var l' := CommitInOrder(l, changes, order, hash);
            if TouchedBy(changes, a) then
              a in l'.accounts && l'.accounts[a] == Committed(AccountOrDefault(l.accounts, a), changes[a], hash)
            else
              (a in l'.accounts <==> a in l.accounts) && (a in l.accounts ==> l'.accounts[a] == l.accounts[a])
  {
    CommitMeaning(l, changes, order, hash);
  }

  /** The dry run caches no code under `h` that differs from what the batch stores there. */
  ghost predicate DryRunCodeFitsAt(s: State, s1: State, changes: Changes, hash: Hasher, h: B256) {
    forall c: Bytecode ::
      Writes(changes, hash, h, c) && h in s1.cur.contracts && h !in s.cur.contracts ==> s1.cur.contracts[h] == c
  }

  lemma DryRunKeepsHashes(s: State, s1: State, w: World, hash: Hasher, changes: Changes,
                          order: seq<Address>, order1: seq<Address>, n: U64)
    requires Same(View(s1.cur, w), View(s.cur, w))
    requires Enumerates(order, changes.Keys) && Enumerates(order1, changes.Keys)
    ensures BlockHashAt(CommitInOrder(s1.cur, changes, order1, hash), w, n)
            == BlockHashAt(CommitInOrder(s.cur, changes, order, hash), w, n)
  {
    assert View(s1.cur, w).blockHash(n) == View(s.cur, w).blockHash(n);
    CommitMeaning(s.cur, changes, order, hash);
    CommitMeaning(s1.cur, changes, order1, hash);
  }

  lemma CommittedCode(l: Layer, w: World, hash: Hasher, changes: Changes, order: seq<Address>, h: B256)
    requires Enumerates(order, changes.Keys) && NoCodeConflict(map[], changes, hash)
    ensures var code := CodeAt(CommitInOrder(l, changes, order, hash), w, h);
            && (h in l.contracts ==> code == l.contracts[h])
            && (forall c: Bytecode :: h !in l.contracts && Writes(changes, hash, h, c) ==> code == c)
            && (h !in l.contracts && !(exists c: Bytecode :: Writes(changes, hash, h, c)) ==> code == w.code(h))
  {
    CommitMeaning(l, changes, order, hash);
  }

  lemma DryRunKeepsCode(s: State, s1: State, w: World, hash: Hasher, changes: Changes,
                        order: seq<Address>, order1: seq<Address>, h: B256)
    requires Warmed(s, s1, w) && NoCodeConflict(map[], changes, hash)
    requires Enumerates(order, changes.Keys) && Enumerates(order1, changes.Keys)
    ensures CodeAt(CommitInOrder(s1.cur, changes, order1, hash), w, h)
              == CodeAt(CommitInOrder(s.cur, changes, order, hash), w, h)
            <==> DryRunCodeFitsAt(s, s1, changes, hash, h)
  {
    CommittedCode(s.cur, w, hash, changes, order, h);
    CommittedCode(s1.cur, w, hash, changes, order1, h);
  }

  /** A program run for its result alone does not change what a later commit does to any answer,
      exactly if no code it looked up stands in the way of code the commit stores. */
  lemma DryRunBeforeCommit<R>(p: Program<R>, s: State, w: World, net: Network, gas: nat, hash: Hasher,
                              changes: Changes, order: seq<Address>, order1: seq<Address>)
    requires AbsentIsZeroOutside(s.cur, w) && NoCodeConflict(map[], changes, hash)
    requires Enumerates(order, changes.Keys) && Enumerates(order1, changes.Keys)
    ensures var s1 := Run(p, s, w, net, [], gas).0;
            Same(View(CommitInOrder(s1.cur, changes, order1, hash), w), View(CommitInOrder(s.cur, changes, order, hash), w))
            <==> forall h: B256 :: DryRunCodeFitsAt(s, s1, changes, hash, h)
  {
    var s1 := Run(p, s, w, net, [], gas).0;
    RunKeepsView(p, s, w, net, [], gas);
    RunOnlyWarms(p, s, w, net, [], gas);
    DryRunCommits(s, s1, w, hash, changes, order, order1);
  }

  lemma {:induction false} DryRunCommits(s: State, s1: State, w: World, hash: Hasher, changes: Changes,
                                         order: seq<Address>, order1: seq<Address>)
    requires Same(View(s1.cur, w), View(s.cur, w)) && Warmed(s, s1, w)
    requires AbsentIsZeroOutside(s.cur, w) && NoCodeConflict(map[], changes, hash)
    requires Enumerates(order, changes.Keys) && Enumerates(order1, changes.Keys)
    ensures Same(View(CommitInOrder(s1.cur, changes, order1, hash), w), View(CommitInOrder(s.cur, changes, order, hash), w))
            <==> forall h: B256 :: DryRunCodeFitsAt(s, s1, changes, hash, h)
  {
    var l, l1 := CommitInOrder(s.cur, changes, order, hash), CommitInOrder(s1.cur, changes, order1, hash);
    forall a: Address ensures InfoAt(l1, w, a) == InfoAt(l, w, a) {
      DryRunKeepsAccounts(s, s1, w, hash, changes, order, order1, a, 0);
    }
    forall a: Address, i: U256 ensures SlotAt(l1, w, a, i) == SlotAt(l, w, a, i) {
      DryRunKeepsAccounts(s, s1, w, hash, changes, order, order1, a, i);
    }
    forall h: B256 ensures CodeAt(l1, w, h) == CodeAt(l, w, h) <==> DryRunCodeFitsAt(s, s1, changes, hash, h) {
      DryRunKeepsCode(s, s1, w, hash, changes, order, order1, h);
    }
    forall n: U64 ensures BlockHashAt(l1, w, n) == BlockHashAt(l, w, n) {
      DryRunKeepsHashes(s, s1, w, hash, changes, order, order1, n);
    }
    SameIffSameCode(l1, l, w);
  }

  lemma SameIffSameCode(l1: Layer, l: Layer, w: World)
    requires forall a: Address :: InfoAt(l1, w, a) == InfoAt(l, w, a)
    requires forall a: Address, i: U256 :: SlotAt(l1, w, a, i) == SlotAt(l, w, a, i)
    requires forall n: U64 :: BlockHashAt(l1, w, n) == BlockHashAt(l, w, n)
    ensures Same(View(l1, w), View(l, w)) <==> forall h: B256 :: CodeAt(l1, w, h) == CodeAt(l, w, h)
  {
    if Same(View(l1, w), View(l, w)) {
      forall h: B256 ensures CodeAt(l1, w, h) == CodeAt(l, w, h) {
        assert View(l1, w).code(h) == View(l, w).code(h);
      }
    }
  }
}
