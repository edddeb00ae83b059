/** The state of the database as a value, and each operation as a function on it. */
module Transitions {
  import opened Types
  import opened Layers

  /** Current entries, and the `original_*` maps that `Clone` starts from. */
  datatype State = State(cur: Layer, orig: Layer)

  const EMPTY_LAYER: Layer := Layer(map[], map[], map[])

  /** A new database knows the code of two hashes; its checkpoint is empty. */
  const NEW_STATE: State := State(Layer(map[], map[KECCAK_EMPTY := [], 0 := []], map[]), EMPTY_LAYER)

  function Clone(s: State): State {
    State(s.orig, s.orig)
  }

  function SyncOriginals(s: State): State {
    State(s.cur, s.cur)
  }

  // ---- loading and caching reads ----

  /** The cache entry for an account as the backing database has it. */
  function Loaded(w: World, a: Address): DbAccount {
    match w.info(a)
    case Some(info) => DbAccount(info, Untouched, map[])
    case None => NOT_EXISTING_ACCOUNT
  }

  function CacheAccount(s: State, a: Address, acc: DbAccount): State {
    s.(cur := s.cur.(accounts := s.cur.accounts[a := acc]),
       orig := s.orig.(accounts := s.orig.accounts[a := acc]))
  }

  /** Make sure the account is cached; on a fault nothing changes. */
  function LoadAccount(s: State, w: World, f: Faults, a: Address): (r: (State, Outcome<()>))
    ensures r.1.Ok? ==> a in r.0.cur.accounts
  {
    if a in s.cur.accounts then (s, Ok(()))
    else match AskWorld(w, f, Basic(a))
      case Err(e) => (s, Err(e))
      case _ => (CacheAccount(s, a, Loaded(w, a)), Ok(()))
  }

  function AddSlot(acc: DbAccount, i: U256, v: U256): DbAccount {
    acc.(storage := acc.storage[i := v])
  }

  function CacheSlot(s: State, a: Address, i: U256, v: U256): State
    requires a in s.cur.accounts && a in s.orig.accounts
  {
    State(s.cur.(accounts := s.cur.accounts[a := AddSlot(s.cur.accounts[a], i, v)]),
          s.orig.(accounts := s.orig.accounts[a := AddSlot(s.orig.accounts[a], i, v)]))
  }

  /** The caching read of a slot. A vacant account costs two questions, of which an absent account
      needs one; a slot read through a cached account is also written to the checkpoint. */
  function ReadSlot(s: State, w: World, f: Faults, a: Address, i: U256): (State, Outcome<Answer>) {
    if Local(s.cur, Slot(a, i)) then
      (s, Ok(LocalAnswer(s.cur, Slot(a, i))))
    else if a in s.cur.accounts then
      match AskWorld(w, f, Slot(a, i))
      case Err(e) => (s, Err(e))
      case _ =>
        if a !in s.orig.accounts then (s, Panic)
        else (CacheSlot(s, a, i, w.slot(a, i)), Ok(WordIs(w.slot(a, i))))
    else
      match AskWorld(w, f, Basic(a))
      case Err(e) => (s, Err(e))
      case _ =>
        if w.info(a).None? then (CacheAccount(s, a, Loaded(w, a)), Ok(WordIs(0)))
        else match AskWorld(w, f, Slot(a, i))
          case Err(e) => (s, Err(e))
          case _ => (CacheAccount(s, a, AddSlot(Loaded(w, a), i, w.slot(a, i))), Ok(WordIs(w.slot(a, i))))
  }

  /** The four caching reads. */
  function Read(s: State, w: World, f: Faults, q: Query): (State, Outcome<Answer>) {
    match q
    case Basic(a) =>
      var (s', r) := LoadAccount(s, w, f, a);
      (match r
       case Ok(_) => (s', Ok(InfoIs(s'.cur.accounts[a].Info())))
       case Err(e) => (s, Err(e))
       case Panic => (s, Panic))
    case Slot(a, i) => ReadSlot(s, w, f, a, i)
    case Code(h) =>
      if h in s.cur.contracts then (s, Ok(CodeIs(s.cur.contracts[h])))
      else (match AskWorld(w, f, q)
            case Err(e) => (s, Err(e))
            case _ => (State(s.cur.(contracts := s.cur.contracts[h := w.code(h)]),
                             s.orig.(contracts := s.orig.contracts[h := w.code(h)])), Ok(CodeIs(w.code(h)))))
    case BlockHash(n) =>
      if n in s.cur.blockHashes then (s, Ok(WordIs(s.cur.blockHashes[n])))
      else (match AskWorld(w, f, q)
            case Err(e) => (s, Err(e))
            case _ => (State(s.cur.(blockHashes := s.cur.blockHashes[n := w.blockHash(n)]),
                             s.orig.(blockHashes := s.orig.blockHashes[n := w.blockHash(n)])), Ok(WordIs(w.blockHash(n)))))
  }

  // ---- insertions ----

  /** The hash under which an info's code is kept, and the code, if the info carries any. */
  function CodeOf(info: AccountInfo, hash: Hasher): Option<(B256, Bytecode)> {
    if info.code.None? || info.code.value == [] then None
    else Some((if info.codeHash == KECCAK_EMPTY then hash(info.code.value) else info.codeHash, info.code.value))
  }

  /** The info as it is stored: the code is hashed if its hash was left empty, a zero hash means no code. */
  function Normalised(info: AccountInfo, hash: Hasher): AccountInfo {
    var h := if CodeOf(info, hash).Some? then CodeOf(info, hash).value.0 else info.codeHash;
    info.(codeHash := if h == 0 then KECCAK_EMPTY else h)
  }

  /** The first writer of a code hash wins. */
  function InsertContract(contracts: map<B256, Bytecode>, info: AccountInfo, hash: Hasher): map<B256, Bytecode> {
    match CodeOf(info, hash)
    case Some((h, c)) => if h in contracts then contracts else contracts[h := c]
    case None => contracts
  }

  function AccountOrDefault(accounts: map<Address, DbAccount>, a: Address): DbAccount {
    if a in accounts then accounts[a] else DEFAULT_ACCOUNT
  }

  function InsertInfo(l: Layer, a: Address, info: AccountInfo, hash: Hasher): Layer {
    l.(contracts := InsertContract(l.contracts, info, hash),
       accounts := l.accounts[a := AccountOrDefault(l.accounts, a).(info := Normalised(info, hash))])
  }

  function InsertSlot(s: State, w: World, f: Faults, a: Address, i: U256, v: U256): (State, Outcome<()>) {
    var (s', r) := LoadAccount(s, w, f, a);
    if !r.Ok? then (s, r)
    else (s'.(cur := s'.cur.(accounts := s'.cur.accounts[a := AddSlot(s'.cur.accounts[a], i, v)])), Ok(()))
  }

  function ReplaceStorage(s: State, w: World, f: Faults, a: Address, storage: map<U256, U256>): (State, Outcome<()>) {
    var (s', r) := LoadAccount(s, w, f, a);
    if !r.Ok? then (s, r)
    else
      var acc := s'.cur.accounts[a].(status := StorageCleared, storage := storage);
      (s'.(cur := s'.cur.(accounts := s'.cur.accounts[a := acc])), Ok(()))
  }

  // ---- commit ----

  /** The values a change leaves in the slots it mentions. */
  function Present(ch: Change): map<U256, U256> {
    map i | i in ch.storage :: ch.storage[i].present
  }

  /** A change that keeps the account and the slots it does not mention. */
  predicate Plain(ch: Change) {
    ch.touched && !ch.selfDestructed && !ch.created
  }

  predicate Destroys(ch: Change) {
    ch.touched && ch.selfDestructed
  }

  /** What a touched change makes of one account. */
  function Committed(acc: DbAccount, ch: Change, hash: Hasher): DbAccount {
    if ch.selfDestructed then NOT_EXISTING_ACCOUNT
    else if ch.created then DbAccount(Normalised(ch.info, hash), StorageCleared, Present(ch))
    else DbAccount(Normalised(ch.info, hash),
                   if acc.status.StorageCleared? then StorageCleared else Touched,
                   acc.storage + Present(ch))
  }

  /** The code a change stores. */
  function CodeWritten(ch: Change, hash: Hasher): Option<(B256, Bytecode)> {
    if ch.touched && !ch.selfDestructed then CodeOf(ch.info, hash) else None
  }

  /** One round of the loop of `commit`. */
  function CommitOne(l: Layer, a: Address, ch: Change, hash: Hasher): Layer {
    if !ch.touched then l
    else l.(contracts := if ch.selfDestructed then l.contracts else InsertContract(l.contracts, ch.info, hash),
            accounts := l.accounts[a := Committed(AccountOrDefault(l.accounts, a), ch, hash)])
  }

  /** An order in which a hash map may be iterated. */
  ghost predicate Enumerates<T>(order: seq<T>, keys: set<T>) {
    && (forall k <- order :: k in keys)
    && (forall k <- keys :: k in order)
    && (forall i, j :: 0 <= i < j < |order| ==> order[i] != order[j])
  }

  /** The loop of `commit` over an iteration order. */
  function CommitInOrder(l: Layer, changes: Changes, order: seq<Address>, hash: Hasher): Layer
    requires forall a <- order :: a in changes
  {
    if order == [] then l
    else
      var n := |order| - 1;
      CommitOne(CommitInOrder(l, changes, order[..n], hash), order[n], changes[order[n]], hash)
  }
}
