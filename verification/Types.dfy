/** Values shared by the whole model: words, accounts, change sets and outcomes.
    A Rust `Option` or `Result` is the datatype of the same shape here; `Outcome` adds the
    panic of an `unwrap` on a missing map entry. */
module Types {

  const TWO_64: nat := 0x1_0000_0000_0000_0000
  const TWO_160: nat := 0x1_0000000000_0000000000_0000000000_0000000000
  const TWO_256: nat :=
    0x1_0000000000000000_0000000000000000_0000000000000000_0000000000000000

  type U64 = n: nat | n < TWO_64
  type U256 = n: nat | n < TWO_256
  type B256 = U256
  type Address = n: nat | n < TWO_160

  type byte = n: nat | n < 256
  type Bytes = seq<byte>

  /** Contract code; the empty sequence is the library's default, empty bytecode. */
  type Bytecode = Bytes

  /** keccak256 of the empty byte string, the code hash of an account without code. */
  const KECCAK_EMPTY: B256 := 0xc5d2460186f7233c_927e7db2dcc703c0_e500b653ca82273b_7bfad8045d85a470

  datatype Option<+T> = None | Some(value: T)

  datatype DbError = DbError(id: int)

  /** The result of a database call: an answer, an error of the backing database, or the panic
      of an `unwrap`. */
  datatype Outcome<+T> = Ok(value: T) | Err(error: DbError) | Panic

  datatype AccountInfo = AccountInfo(balance: U256, nonce: U64, codeHash: B256, code: Option<Bytecode>)

  const DEFAULT_INFO: AccountInfo := AccountInfo(0, 0, KECCAK_EMPTY, Some([]))

  datatype AccountState = NotExisting | Touched | StorageCleared | Untouched

  datatype DbAccount = DbAccount(info: AccountInfo, status: AccountState, storage: map<U256, U256>)
  {
    /** The info a reader may see: none for an account that does not exist. */
    function Info(): Option<AccountInfo> {
      if status.NotExisting? then None else Some(info)
    }

    /** An unwritten slot of this account is looked up in the backing database. */
    predicate ReadsThrough() {
      status.Touched? || status.Untouched?
    }
  }

  const DEFAULT_ACCOUNT: DbAccount := DbAccount(DEFAULT_INFO, Untouched, map[])
  const NOT_EXISTING_ACCOUNT: DbAccount := DbAccount(DEFAULT_INFO, NotExisting, map[])

  datatype StorageSlot = StorageSlot(original: U256, present: U256)

  /** One account of a change set the interpreter hands to `commit`. */
  datatype Change = Change(
    info: AccountInfo,
    storage: map<U256, StorageSlot>,
    touched: bool,
    selfDestructed: bool,
    created: bool)

  /** A batch of changes. Its iteration order is not specified. */
  type Changes = map<Address, Change>

  type Hasher = Bytecode -> B256
}
