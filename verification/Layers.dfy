/** A layer of cached entries over a backing database, and what a reader sees through it. */
module Layers {
  import opened Types

  /** One question a reader may put to a database, and its answer. */
  datatype Query =
    | Basic(address: Address)
    | Slot(account: Address, index: U256)
    | Code(hash: B256)
    | BlockHash(number: U64)

  datatype Answer = InfoIs(info: Option<AccountInfo>) | WordIs(word: U256) | CodeIs(code: Bytecode)

  /** A total database: the answer to every question, when the question can be put at all. */
  datatype World = World(
    info: Address -> Option<AccountInfo>,
    slot: (Address, U256) -> U256,
    code: B256 -> Bytecode,
    blockHash: U64 -> B256)
  {
    function Get(q: Query): Answer {
      match q
      case Basic(a) => InfoIs(info(a))
      case Slot(a, i) => WordIs(slot(a, i))
      case Code(h) => CodeIs(code(h))
      case BlockHash(n) => WordIs(blockHash(n))
    }
  }

  /** The queries that fail during one call on the backing database. They may differ from call to call. */
  type Faults = Query -> Option<DbError>

  const NO_FAULTS: Faults := (q: Query) => None

  /** The faults met at each step of a longer operation. */
  type Network = nat -> Faults

  const NO_OUTAGE: Network := (k: nat) => NO_FAULTS

  /** The backing database is asked `q`. */
  function AskWorld(w: World, f: Faults, q: Query): Outcome<Answer> {
    match f(q)
    case Some(e) => Err(e)
    case None => Ok(w.Get(q))
  }

  /** An absent account of `w` has no storage. */
  ghost predicate AbsentIsZero(w: World) {
    forall a: Address, i: U256 :: w.info(a).None? ==> w.slot(a, i) == 0
  }

  /** Two databases that no reader can tell apart. */
  ghost predicate Same(v: World, w: World) {
    && (forall a: Address :: v.info(a) == w.info(a))
    && (forall a: Address, i: U256 :: v.slot(a, i) == w.slot(a, i))
    && (forall h: B256 :: v.code(h) == w.code(h))
    && (forall n: U64 :: v.blockHash(n) == w.blockHash(n))
  }

  datatype Layer = Layer(
    accounts: map<Address, DbAccount>,
    contracts: map<B256, Bytecode>,
    blockHashes: map<U256, B256>)

  /** The layer answers `q` without asking the backing database. */
  predicate Local(l: Layer, q: Query) {
    match q
    case Basic(a) => a in l.accounts
    case Slot(a, i) => a in l.accounts && (i in l.accounts[a].storage || !l.accounts[a].ReadsThrough())
    case Code(h) => h in l.contracts
    case BlockHash(n) => n in l.blockHashes
  }

  /** The answer to a question the layer can answer. */
  function LocalAnswer(l: Layer, q: Query): Answer
    requires Local(l, q)
  {
    match q
    case Basic(a) => InfoIs(l.accounts[a].Info())
    case Slot(a, i) => WordIs(if i in l.accounts[a].storage then l.accounts[a].storage[i] else 0)
    case Code(h) => CodeIs(l.contracts[h])
    case BlockHash(n) => WordIs(l.blockHashes[n])
  }

  /** The reads that leave the layer alone: cached entry first, then the backing database. They answer with
      the view, and fail only on a fault of a question the layer cannot answer. */
  function ReadRef(l: Layer, w: World, f: Faults, q: Query): (r: Outcome<Answer>)
    ensures r == if !Local(l, q) && f(q).Some? then Err(f(q).value) else Ok(View(l, w).Get(q))
  {
    if Local(l, q) then Ok(LocalAnswer(l, q)) else AskWorld(w, f, q)
  }

  function InfoAt(l: Layer, w: World, a: Address): Option<AccountInfo> {
    if a in l.accounts then l.accounts[a].Info() else w.info(a)
  }

  function SlotAt(l: Layer, w: World, a: Address, i: U256): U256 {
    if a !in l.accounts then w.slot(a, i)
    else if i in l.accounts[a].storage then l.accounts[a].storage[i]
    else if l.accounts[a].ReadsThrough() then w.slot(a, i)
    else 0
  }

  function CodeAt(l: Layer, w: World, h: B256): Bytecode {
    if h in l.contracts then l.contracts[h] else w.code(h)
  }

  function BlockHashAt(l: Layer, w: World, n: U64): B256 {
    if n in l.blockHashes then l.blockHashes[n] else w.blockHash(n)
  }

  /** What can be read through a layer is a database again: layers stack. */
  function View(l: Layer, w: World): World {
    World((a: Address) => InfoAt(l, w, a),
          (a: Address, i: U256) => SlotAt(l, w, a, i),
          (h: B256) => CodeAt(l, w, h),
          (n: U64) => BlockHashAt(l, w, n))
  }
}
