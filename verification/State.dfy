/** `WitnessDatabase` and `AccountWitness` of crates/consensus/src/stateless.rs: the state the engines run on. */
module State {
  import opened Machine

  type B256 = s: seq<byte> | |s| == 32 witness Zeros(32)
  type Quadrants = q: seq<u64> | |q| == 4 witness [0, 0, 0, 0]

  datatype AccountWitness = AccountWitness(
    balance: U256,
    nonce: u64,
    codeHash: B256,
    code: seq<byte>,
    quadrants: Quadrants)

  const DEFAULT_ACCOUNT := AccountWitness(0, 0, Zeros(32), [], [0, 0, 0, 0])

  /** The two maps of a witness database, as a value. */
  datatype Db = Db(accounts: map<Address, AccountWitness>, storage: map<Address, map<U256, U256>>)

  /** A missing account reads as the default one. */
  function AccountOf(db: Db, a: Address): AccountWitness {
    if a in db.accounts then db.accounts[a] else DEFAULT_ACCOUNT
  }

  /** An account nobody has stored: no balance, no nonce, no code. */
  lemma MissingAccount(db: Db, a: Address)
    requires a !in db.accounts
    ensures AccountOf(db, a) == AccountWitness(0, 0, Zeros(32), [], [0, 0, 0, 0])
  {
  }

  /** A missing slot reads as zero. */
  function SlotOf(db: Db, a: Address, slot: U256): U256 {
    if a in db.storage && slot in db.storage[a] then db.storage[a][slot] else 0
  }

  /** No lookup tells the two databases apart. */
  ghost predicate SameState(d: Db, e: Db) {
    && (forall a: Address :: AccountOf(d, a) == AccountOf(e, a))
    && (forall a: Address, slot: U256 :: SlotOf(d, a, slot) == SlotOf(e, a, slot))
  }

  class WitnessDatabase {
    var accounts: map<Address, AccountWitness>
    var storage: map<Address, map<U256, U256>>

    constructor (db: Db)
      ensures Contents() == db
    {
      accounts, storage := db.accounts, db.storage;
    }

    function Contents(): Db
      reads this
    {
      Db(accounts, storage)
    }
  }
}
