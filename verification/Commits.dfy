/** What a batch commit means, whatever the order in which its hash map is iterated. */
module Commits {
  import opened Types
  import opened Layers
  import opened Transitions

  ghost predicate TouchedBy(changes: Changes, a: Address) {
    a in changes && changes[a].touched
  }

  /** Account by account: the touched ones make their transition, the others stay. */
  ghost predicate AccountsCommitted(accounts: map<Address, DbAccount>, changes: Changes, hash: Hasher,
                                    accounts': map<Address, DbAccount>) {
    forall a: Address ::
      && (a in accounts' <==> a in accounts || TouchedBy(changes, a))
      && (TouchedBy(changes, a) ==> accounts'[a] == Committed(AccountOrDefault(accounts, a), changes[a], hash))
      && (a in accounts && !TouchedBy(changes, a) ==> accounts'[a] == accounts[a])
  }

  /** Some change of the batch stores `c` under `h`. */
  ghost predicate Writes(changes: Changes, hash: Hasher, h: B256, c: Bytecode) {
    exists a <- changes :: CodeWritten(changes[a], hash) == Some((h, c))
  }

  /** Known code stays; each new code was written by the batch; everything written is known. */
  ghost predicate ContractsCommitted(contracts: map<B256, Bytecode>, changes: Changes, hash: Hasher,
                                     contracts': map<B256, Bytecode>) {
    && (forall h <- contracts :: h in contracts' && contracts'[h] == contracts[h])
    && (forall h <- contracts' :: h in contracts || Writes(changes, hash, h, contracts'[h]))
    && (forall h: B256, c: Bytecode :: Writes(changes, hash, h, c) ==> h in contracts')
  }

  /** What it means to store code: a touched change that does not destroy its account carries it, under the hash
      the info says, or under its own if the info says that of the empty code. */
  lemma WritesExactly(changes: Changes, hash: Hasher, h: B256, c: Bytecode)
    ensures Writes(changes, hash, h, c) <==>
            exists a <- changes ::
              && changes[a].touched && !changes[a].selfDestructed
              && changes[a].info.code == Some(c) && c != []
              && h == if changes[a].info.codeHash == KECCAK_EMPTY then hash(c) else changes[a].info.codeHash
  {
  }

  /** The batch changes visited so far. */
  function Visited(changes: Changes, order: seq<Address>): Changes {
    map a | a in changes && a in order :: changes[a]
  }

  ghost predicate Distinct<T>(order: seq<T>) {
    forall i, j :: 0 <= i < j < |order| ==> order[i] != order[j]
  }

  lemma VisitedGrows(changes: Changes, order: seq<Address>)
    requires order != [] && Distinct(order) && forall a <- order :: a in changes
    ensures var n := |order| - 1;
            && order[n] !in Visited(changes, order[..n])
            && Visited(changes, order) == Visited(changes, order[..n])[order[n] := changes[order[n]]]
  {
    var n := |order| - 1;
    assert order == order[..n] + [order[n]];
  }

  lemma {:induction false} PrefixAccounts(l: Layer, changes: Changes, order: seq<Address>, hash: Hasher)
    requires Distinct(order) && forall a <- order :: a in changes
    ensures var l' := CommitInOrder(l, changes, order, hash);
            && AccountsCommitted(l.accounts, Visited(changes, order), hash, l'.accounts)
            && l'.blockHashes == l.blockHashes
    decreases |order|
  {
    if order != [] {
      PrefixAccounts(l, changes, order[..|order| - 1], hash);
      VisitedGrows(changes, order);
    }
  }

  lemma {:induction false} PrefixContracts(l: Layer, changes: Changes, order: seq<Address>, hash: Hasher)
    requires Distinct(order) && forall a <- order :: a in changes
    ensures ContractsCommitted(l.contracts, Visited(changes, order), hash,
                               CommitInOrder(l, changes, order, hash).contracts)
    decreases |order|
  {
    if order != [] {
      var n := |order| - 1;
      PrefixContracts(l, changes, order[..n], hash);
      VisitedGrows(changes, order);
      OneContract(l.contracts, Visited(changes, order[..n]), CommitInOrder(l, changes, order[..n], hash),
                  order[n], changes[order[n]], hash);
    }
  }

  lemma OneContract(contracts: map<B256, Bytecode>, changes: Changes, l: Layer, a: Address, ch: Change, hash: Hasher)
    requires ContractsCommitted(contracts, changes, hash, l.contracts) && a !in changes
    ensures ContractsCommitted(contracts, changes[a := ch], hash, CommitOne(l, a, ch, hash).contracts)
  {
    var more, contracts' := changes[a := ch], CommitOne(l, a, ch, hash).contracts;
    WritesOneMore(changes, a, ch, hash);
    forall h | h in contracts' && h !in contracts ensures Writes(more, hash, h, contracts'[h]) {
      if h in l.contracts {
        assert Writes(changes, hash, h, l.contracts[h]);
      }
    }
  }

  lemma WritesOneMore(changes: Changes, a: Address, ch: Change, hash: Hasher)
    requires a !in changes
    ensures forall h: B256, c: Bytecode ::
      Writes(changes[a := ch], hash, h, c) <==> Writes(changes, hash, h, c) || CodeWritten(ch, hash) == Some((h, c))
  {
    var more := changes[a := ch];
    forall h: B256, c: Bytecode
      ensures Writes(more, hash, h, c) <==> Writes(changes, hash, h, c) || CodeWritten(ch, hash) == Some((h, c))
    {
      if Writes(changes, hash, h, c) {
        var b :| b in changes && CodeWritten(changes[b], hash) == Some((h, c));
        assert CodeWritten(more[b], hash) == Some((h, c));
      }
      if CodeWritten(ch, hash) == Some((h, c)) {
        assert CodeWritten(more[a], hash) == Some((h, c));
      }
    }
  }

  /** A batch commit is the per-account transition at every touched address, with a frame everywhere else. */
  lemma CommitMeaning(l: Layer, changes: Changes, order: seq<Address>, hash: Hasher)
    requires Enumerates(order, changes.Keys)
    ensures var l' := CommitInOrder(l, changes, order, hash);
            && AccountsCommitted(l.accounts, changes, hash, l'.accounts)
            && ContractsCommitted(l.contracts, changes, hash, l'.contracts)
            && l'.blockHashes == l.blockHashes
  {
    assert Visited(changes, order) == changes;
    PrefixAccounts(l, changes, order, hash);
    PrefixContracts(l, changes, order, hash);
  }

  // ---- order ----

  /** No two changes store different code under one unknown hash. */
  ghost predicate NoCodeConflict(contracts: map<B256, Bytecode>, changes: Changes, hash: Hasher) {
    forall h: B256, c: Bytecode, d: Bytecode ::
      Writes(changes, hash, h, c) && Writes(changes, hash, h, d) && h !in contracts ==> c == d
  }

  /** Every order gives one result if and only if the batch has no code conflict. */
  lemma CommitOrderIndependence(l: Layer, changes: Changes, hash: Hasher)
    ensures NoCodeConflict(l.contracts, changes, hash) <==>
            forall o1: seq<Address>, o2: seq<Address> ::
              Enumerates(o1, changes.Keys) && Enumerates(o2, changes.Keys)
              ==> CommitInOrder(l, changes, o1, hash) == CommitInOrder(l, changes, o2, hash)
  {
    if NoCodeConflict(l.contracts, changes, hash) {
      forall o1: seq<Address>, o2: seq<Address> | Enumerates(o1, changes.Keys) && Enumerates(o2, changes.Keys)
        ensures CommitInOrder(l, changes, o1, hash) == CommitInOrder(l, changes, o2, hash)
      {
        OrdersAgree(l, changes, o1, o2, hash);
      }
    } else {
      var h: B256, c: Bytecode, d: Bytecode :|
        Writes(changes, hash, h, c) && Writes(changes, hash, h, d) && h !in l.contracts && c != d;
      var a :| a in changes && CodeWritten(changes[a], hash) == Some((h, c));
      var b :| b in changes && CodeWritten(changes[b], hash) == Some((h, d));
      var o1 := EnumerationFrom(changes.Keys, a);
      var o2 := EnumerationFrom(changes.Keys, b);
      FirstWriterWins(l, changes, o1, hash);
      FirstWriterWins(l, changes, o2, hash);
    }
  }

  lemma OrdersAgree(l: Layer, changes: Changes, o1: seq<Address>, o2: seq<Address>, hash: Hasher)
    requires Enumerates(o1, changes.Keys) && Enumerates(o2, changes.Keys)
    requires NoCodeConflict(l.contracts, changes, hash)
    ensures CommitInOrder(l, changes, o1, hash) == CommitInOrder(l, changes, o2, hash)
  {
    CommitMeaning(l, changes, o1, hash);
    CommitMeaning(l, changes, o2, hash);
    var l1, l2 := CommitInOrder(l, changes, o1, hash), CommitInOrder(l, changes, o2, hash);
    AccountsAreDetermined(l.accounts, changes, hash, l1.accounts, l2.accounts);
    ContractsAreDetermined(l.contracts, changes, hash, l1.contracts, l2.contracts);
  }

  lemma ContractsAreDetermined(contracts: map<B256, Bytecode>, changes: Changes, hash: Hasher,
                               x: map<B256, Bytecode>, y: map<B256, Bytecode>)
    requires ContractsCommitted(contracts, changes, hash, x) && ContractsCommitted(contracts, changes, hash, y)
    requires NoCodeConflict(contracts, changes, hash)
    ensures x == y
  {
    forall h ensures h in x <==> h in y {
      if h in x && h !in contracts {
        assert Writes(changes, hash, h, x[h]);
      }
      if h in y && h !in contracts {
        assert Writes(changes, hash, h, y[h]);
      }
    }
    forall h | h in x ensures x[h] == y[h] {
      if h !in contracts {
        assert Writes(changes, hash, h, x[h]) && Writes(changes, hash, h, y[h]);
      }
    }
  }

  lemma AccountsAreDetermined(accounts: map<Address, DbAccount>, changes: Changes, hash: Hasher,
                              x: map<Address, DbAccount>, y: map<Address, DbAccount>)
    requires AccountsCommitted(accounts, changes, hash, x) && AccountsCommitted(accounts, changes, hash, y)
    ensures x == y
  {
    assert forall a: Address :: a in x <==> a in y;
    assert forall a: Address :: a in x ==> x[a] == y[a];
  }

  /** Some iteration order of a set starts with a given element. */
  lemma EnumerationFrom(keys: set<Address>, a: Address) returns (order: seq<Address>)
    requires a in keys
    ensures Enumerates(order, keys) && order[0] == a
    decreases keys
  {
    var rest := keys - {a};
    if rest == {} {
      order := [a];
    } else {
      var b :| b in rest;
      var tail := EnumerationFrom(rest, b);
      order := [a] + tail;
    }
  }

  lemma {:induction false} FirstWriterWins(l: Layer, changes: Changes, order: seq<Address>, hash: Hasher)
    requires order != [] && forall a <- order :: a in changes
    requires CodeWritten(changes[order[0]], hash).Some?
    requires CodeWritten(changes[order[0]], hash).value.0 !in l.contracts
    ensures var (h, c) := CodeWritten(changes[order[0]], hash).value;
            var l' := CommitInOrder(l, changes, order, hash);
            h in l'.contracts && l'.contracts[h] == c
    decreases |order|
  {
    var n := |order| - 1;
    if n == 0 {
      assert order[..0] == [];
    } else {
      FirstWriterWins(l, changes, order[..n], hash);
    }
  }

  // ---- repetition and composition ----

  /** Committing a batch twice, in whatever orders, is committing it once. */
  lemma CommitIsIdempotent(l: Layer, changes: Changes, o1: seq<Address>, o2: seq<Address>, hash: Hasher)
    requires Enumerates(o1, changes.Keys) && Enumerates(o2, changes.Keys)
    ensures var l1 := CommitInOrder(l, changes, o1, hash);
            CommitInOrder(l1, changes, o2, hash) == l1
  {
    var l1 := CommitInOrder(l, changes, o1, hash);
    var l2 := CommitInOrder(l1, changes, o2, hash);
    CommitMeaning(l, changes, o1, hash);
    CommitMeaning(l1, changes, o2, hash);
    AccountsCommittedTwice(l.accounts, changes, hash, l1.accounts, l2.accounts);
    ContractsCommittedTwice(l.contracts, changes, hash, l1.contracts, l2.contracts);
  }

  lemma AccountsCommittedTwice(accounts: map<Address, DbAccount>, changes: Changes, hash: Hasher,
                               once: map<Address, DbAccount>, twice: map<Address, DbAccount>)
    requires AccountsCommitted(accounts, changes, hash, once) && AccountsCommitted(once, changes, hash, twice)
    ensures once == twice
  {
    assert forall a: Address :: a in twice <==> a in once;
    forall a: Address | a in twice ensures twice[a] == once[a] {
      if TouchedBy(changes, a) {
        CommittedTwice(AccountOrDefault(accounts, a), changes[a], hash);
      }
    }
  }

  lemma ContractsCommittedTwice(contracts: map<B256, Bytecode>, changes: Changes, hash: Hasher,
                                once: map<B256, Bytecode>, twice: map<B256, Bytecode>)
    requires ContractsCommitted(contracts, changes, hash, once) && ContractsCommitted(once, changes, hash, twice)
    ensures once == twice
  {
    assert forall h <- twice :: h in once || Writes(changes, hash, h, twice[h]);
  }

  lemma CommittedTwice(acc: DbAccount, ch: Change, hash: Hasher)
    requires ch.touched
    ensures Committed(Committed(acc, ch, hash), ch, hash) == Committed(acc, ch, hash)
  {
    var once := Committed(acc, ch, hash);
    if Plain(ch) {
      assert once.storage + Present(ch) == once.storage;
    }
  }

  /** One change with the effect of two: the later writer of a slot wins, and a later creation or
      destruction forgets the earlier change. */
  function MergeChange(c1: Change, c2: Change): Change {
    if !c2.touched then c1
    else if !c1.touched || c1.selfDestructed || !Plain(c2) then c2
    else Change(c2.info, c1.storage + c2.storage, true, false, c1.created)
  }

  function Merge(b1: Changes, b2: Changes): Changes {
    map a | a in b1.Keys + b2.Keys ::
      if a !in b2 then b1[a] else if a !in b1 then b2[a] else MergeChange(b1[a], b2[a])
  }

  /** A plain change after a destruction forgets nothing of `acc`. */
  predicate RevivalIsHarmless(acc: DbAccount, c1: Change, c2: Change) {
    Destroys(c1) && Plain(c2) ==> !acc.status.StorageCleared? && acc.storage.Keys <= c2.storage.Keys
  }

  predicate HarmlessAt(accounts: map<Address, DbAccount>, b1: Changes, b2: Changes, a: Address) {
    a in b1 && a in b2 ==> RevivalIsHarmless(AccountOrDefault(accounts, a), b1[a], b2[a])
  }

  lemma MergedChangeComposes(acc: DbAccount, c1: Change, c2: Change, hash: Hasher)
    requires c1.touched && c2.touched
    ensures Committed(acc, MergeChange(c1, c2), hash) == Committed(Committed(acc, c1, hash), c2, hash)
            <==> RevivalIsHarmless(acc, c1, c2)
  {
    if Plain(c2) {
      if Destroys(c1) {
        RevivedStorage(acc, c2);
      } else {
        MergedStorage(acc.storage, c1, c2);
      }
    }
  }

  lemma RevivedStorage(acc: DbAccount, ch: Change)
    ensures acc.storage + Present(ch) == map[] + Present(ch) <==> acc.storage.Keys <= ch.storage.Keys
  {
    var one, two := acc.storage + Present(ch), map[] + Present(ch);
    assert one.Keys == acc.storage.Keys + ch.storage.Keys && two.Keys == ch.storage.Keys;
  }

  lemma MergedStorage(storage: map<U256, U256>, c1: Change, c2: Change)
    ensures Present(c1.(storage := c1.storage + c2.storage)) == Present(c1) + Present(c2)
    ensures storage + (Present(c1) + Present(c2)) == (storage + Present(c1)) + Present(c2)
  {
    assert Present(c1.(storage := c1.storage + c2.storage)) == Present(c1) + Present(c2);
  }

  /** The code a batch stores under `h`. */
  ghost function CodesFor(changes: Changes, hash: Hasher, h: B256): iset<Bytecode> {
    iset c: Bytecode | Writes(changes, hash, h, c)
  }

  ghost predicate AtMostOne<T(!new)>(s: iset<T>) {
    forall x, y :: x in s && y in s ==> x == y
  }

  /** The merged batch still stores what the first stores under unknown hashes. */
  ghost predicate MergeKeepsCode(contracts: map<B256, Bytecode>, b1: Changes, b2: Changes, hash: Hasher) {
    forall h: B256 :: h !in contracts ==> CodesFor(b1, hash, h) <= CodesFor(Merge(b1, b2), hash, h)
  }

  /** Two commits in a row are one commit of the merged batch: on the accounts, exactly if no account that the
      first destroys and the second plainly touches had cleared storage or a slot the second does not set; on
      the code, where neither the first nor the merged batch has a conflict of its own, exactly if merging
      drops no code the first stores. */
  lemma CommitsCompose(l: Layer, b1: Changes, b2: Changes, o1: seq<Address>, o2: seq<Address>, o: seq<Address>,
                       hash: Hasher)
    requires Enumerates(o1, b1.Keys) && Enumerates(o2, b2.Keys) && Enumerates(o, Merge(b1, b2).Keys)
    ensures var l2 := CommitInOrder(CommitInOrder(l, b1, o1, hash), b2, o2, hash);
            var m := CommitInOrder(l, Merge(b1, b2), o, hash);
            && (l2.accounts == m.accounts <==> forall a <- b1 :: HarmlessAt(l.accounts, b1, b2, a))
            && (NoCodeConflict(l.contracts, b1, hash) && NoCodeConflict(l.contracts, Merge(b1, b2), hash) ==>
                  (l2.contracts == m.contracts <==> MergeKeepsCode(l.contracts, b1, b2, hash)))
            && l2.blockHashes == m.blockHashes
  {
    var l1 := CommitInOrder(l, b1, o1, hash);
    var l2, m := CommitInOrder(l1, b2, o2, hash), CommitInOrder(l, Merge(b1, b2), o, hash);
    CommitMeaning(l, b1, o1, hash);
    CommitMeaning(l1, b2, o2, hash);
    CommitMeaning(l, Merge(b1, b2), o, hash);
    AccountsCompose(l.accounts, b1, b2, hash, l1.accounts, l2.accounts, m.accounts);
    if NoCodeConflict(l.contracts, b1, hash) && NoCodeConflict(l.contracts, Merge(b1, b2), hash) {
      ContractsCompose(l.contracts, b1, b2, hash, l1.contracts, l2.contracts, m.contracts);
    }
  }

  lemma MergeWrites(b1: Changes, b2: Changes, hash: Hasher, h: B256, c: Bytecode)
    ensures Writes(b2, hash, h, c) ==> Writes(Merge(b1, b2), hash, h, c)
    ensures Writes(Merge(b1, b2), hash, h, c) ==> Writes(b1, hash, h, c) || Writes(b2, hash, h, c)
  {
    if Writes(b2, hash, h, c) {
      var a :| a in b2 && CodeWritten(b2[a], hash) == Some((h, c));
      assert CodeWritten(Merge(b1, b2)[a], hash) == Some((h, c));
    }
    if Writes(Merge(b1, b2), hash, h, c) {
      var a :| a in Merge(b1, b2) && CodeWritten(Merge(b1, b2)[a], hash) == Some((h, c));
      assert (a in b1 && CodeWritten(b1[a], hash) == Some((h, c)))
             || (a in b2 && CodeWritten(b2[a], hash) == Some((h, c)));
    }
  }

  lemma MergedCodes(b1: Changes, b2: Changes, hash: Hasher, h: B256)
    ensures CodesFor(b2, hash, h) <= CodesFor(Merge(b1, b2), hash, h) <= CodesFor(b1, hash, h) + CodesFor(b2, hash, h)
  {
    forall c: Bytecode
      ensures c in CodesFor(b2, hash, h) ==> c in CodesFor(Merge(b1, b2), hash, h)
      ensures c in CodesFor(Merge(b1, b2), hash, h) ==> c in CodesFor(b1, hash, h) + CodesFor(b2, hash, h)
    {
      MergeWrites(b1, b2, hash, h, c);
    }
  }

  function Lookup<K, V>(m: map<K, V>, k: K): Option<V> {
    if k in m then Some(m[k]) else None
  }

  /** The code found under an unknown hash is one of the stored codes, if there are any. */
  ghost predicate Picks(found: Option<Bytecode>, codes: iset<Bytecode>) {
    if found.Some? then found.value in codes else codes == iset{}
  }

  lemma CommitPicks(contracts: map<B256, Bytecode>, changes: Changes, hash: Hasher,
                    contracts': map<B256, Bytecode>, h: B256)
    requires ContractsCommitted(contracts, changes, hash, contracts') && h !in contracts
    ensures Picks(Lookup(contracts', h), CodesFor(changes, hash, h))
  {
  }

  lemma TwoCommitsPick(contracts: map<B256, Bytecode>, b1: Changes, b2: Changes, hash: Hasher,
                       once: map<B256, Bytecode>, twice: map<B256, Bytecode>, h: B256)
    requires ContractsCommitted(contracts, b1, hash, once) && ContractsCommitted(once, b2, hash, twice)
    requires h !in contracts
    ensures Picks(Lookup(twice, h), if CodesFor(b1, hash, h) != iset{} then CodesFor(b1, hash, h) else CodesFor(b2, hash, h))
  {
    CommitPicks(contracts, b1, hash, once, h);
    if h in once {
      assert twice[h] == once[h];
    } else {
      CommitPicks(once, b2, hash, twice, h);
    }
  }

  lemma NoConflictIsAtMostOne(contracts: map<B256, Bytecode>, changes: Changes, hash: Hasher, h: B256)
    requires NoCodeConflict(contracts, changes, hash) && h !in contracts
    ensures AtMostOne(CodesFor(changes, hash, h))
  {
  }

  lemma SamePick(w1: iset<Bytecode>, w2: iset<Bytecode>, m: iset<Bytecode>,
                 twice: Option<Bytecode>, merged: Option<Bytecode>)
    requires w2 <= m <= w1 + w2 && AtMostOne(w1) && AtMostOne(m)
    requires Picks(twice, if w1 != iset{} then w1 else w2) && Picks(merged, m)
    ensures twice == merged <==> w1 <= m
  {
    if w1 == iset{} {
      assert m == w2;
    } else {
      assert w1 == iset{twice.value};
      assert merged.Some? ==> m == iset{merged.value};
    }
  }

  lemma ContractsCompose(contracts: map<B256, Bytecode>, b1: Changes, b2: Changes, hash: Hasher,
                         once: map<B256, Bytecode>, twice: map<B256, Bytecode>, merged: map<B256, Bytecode>)
    requires ContractsCommitted(contracts, b1, hash, once) && ContractsCommitted(once, b2, hash, twice)
    requires ContractsCommitted(contracts, Merge(b1, b2), hash, merged)
    requires NoCodeConflict(contracts, b1, hash) && NoCodeConflict(contracts, Merge(b1, b2), hash)
    ensures twice == merged <==> MergeKeepsCode(contracts, b1, b2, hash)
  {
    forall h: B256
      ensures Lookup(twice, h) == Lookup(merged, h)
              <==> (h !in contracts ==> CodesFor(b1, hash, h) <= CodesFor(Merge(b1, b2), hash, h))
    {
      if h !in contracts {
        MergedCodes(b1, b2, hash, h);
        NoConflictIsAtMostOne(contracts, b1, hash, h);
        NoConflictIsAtMostOne(contracts, Merge(b1, b2), hash, h);
        TwoCommitsPick(contracts, b1, b2, hash, once, twice, h);
        CommitPicks(contracts, Merge(b1, b2), hash, merged, h);
        SamePick(CodesFor(b1, hash, h), CodesFor(b2, hash, h), CodesFor(Merge(b1, b2), hash, h),
                 Lookup(twice, h), Lookup(merged, h));
      }
    }
    SameLookupsSameMap(twice, merged);
  }

  lemma SameLookupsSameMap<K(!new), V>(m: map<K, V>, n: map<K, V>)
    ensures m == n <==> forall k: K :: Lookup(m, k) == Lookup(n, k)
  {
    if forall k: K :: Lookup(m, k) == Lookup(n, k) {
      forall k: K ensures k in m <==> k in n {
        assert Lookup(m, k) == Lookup(n, k);
      }
      assert m.Keys == n.Keys;
      forall k | k in m ensures m[k] == n[k] {
        assert Lookup(m, k) == Lookup(n, k);
      }
    }
  }

  lemma AccountsCompose(accounts: map<Address, DbAccount>, b1: Changes, b2: Changes, hash: Hasher,
                        once: map<Address, DbAccount>, twice: map<Address, DbAccount>, merged: map<Address, DbAccount>)
    requires AccountsCommitted(accounts, b1, hash, once) && AccountsCommitted(once, b2, hash, twice)
    requires AccountsCommitted(accounts, Merge(b1, b2), hash, merged)
    ensures twice == merged
            <==> forall a <- b1 :: HarmlessAt(accounts, b1, b2, a)
  {
    forall a: Address
      ensures a in twice <==> a in merged
      ensures a in merged ==> (twice[a] == merged[a] <==> HarmlessAt(accounts, b1, b2, a))
    {
      AccountComposes(accounts, b1, b2, hash, once, twice, merged, a);
    }
    if twice == merged {
      forall a | a in b1 && a in b2 ensures HarmlessAt(accounts, b1, b2, a) {
        assert TouchedBy(b1, a) ==> a in twice;
      }
    }
  }

  lemma AccountComposes(accounts: map<Address, DbAccount>, b1: Changes, b2: Changes, hash: Hasher,
                        once: map<Address, DbAccount>, twice: map<Address, DbAccount>, merged: map<Address, DbAccount>,
                        a: Address)
    requires AccountsCommitted(accounts, b1, hash, once) && AccountsCommitted(once, b2, hash, twice)
    requires AccountsCommitted(accounts, Merge(b1, b2), hash, merged)
    ensures a in twice <==> a in merged
    ensures a in merged ==> (twice[a] == merged[a] <==> HarmlessAt(accounts, b1, b2, a))
  {
    assert TouchedBy(Merge(b1, b2), a) <==> TouchedBy(b1, a) || TouchedBy(b2, a);
    if TouchedBy(b1, a) && TouchedBy(b2, a) {
      assert Merge(b1, b2)[a] == MergeChange(b1[a], b2[a]);
      MergedChangeComposes(AccountOrDefault(accounts, a), b1[a], b2[a], hash);
    }
  }
}
