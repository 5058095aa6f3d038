/**
 One transfer, and plain one-at-a-time execution of a list of transfers
 (crates/consensus/src/parallel.rs). Every engine is a faster form of `Serial`.
 */
module Transfers {
  import opened Machine
  import opened State

  /** Slots by address, as an access list declares them. */
  type Slots = map<Address, set<U256>>

  predicate HasSlot(slots: Slots, a: Address, slot: U256) {
    a in slots && slot in slots[a]
  }

  ghost predicate SlotsMeet(x: Slots, y: Slots) {
    exists a: Address, slot: U256 :: HasSlot(x, a, slot) && HasSlot(y, a, slot)
  }

  datatype TxAccessList = TxAccessList(
    index: usize,
    sender: Address,
    recipient: Address,
    value: U256,
    nonce: u64,
    readAddresses: set<Address>,
    writeAddresses: set<Address>,
    readSlots: Slots,
    writeSlots: Slots)

  datatype ExecError =
    | NonceMismatch(account: Address, expected: u64, found: u64)
    | InsufficientBalance(account: Address)
    | FailedToConverge

  // ---------- one transfer ----------

  /** The checks made on the sender, in order; `None` when the transfer may go ahead. */
  function Rejection(tx: TxAccessList, sender: AccountWitness): Option<ExecError> {
    if sender.nonce != tx.nonce then Some(NonceMismatch(tx.sender, tx.nonce, sender.nonce))
    else if sender.balance < tx.value then Some(InsufficientBalance(tx.sender))
    else None
  }

  function Debited(tx: TxAccessList, sender: AccountWitness): AccountWitness
    requires Rejection(tx, sender).None?
  {
    sender.(balance := sender.balance - tx.value, nonce := WrappingAdd64(sender.nonce, 1))
  }

  function Credited(tx: TxAccessList, recipient: AccountWitness): AccountWitness {
    recipient.(balance := WrappingAdd256(recipient.balance, tx.value))
  }

  /** The simulated value written to a slot: the slot key plus the index plus one, wrapping. */
  function SlotValue(tx: TxAccessList, slot: U256): U256 {
    WrappingAdd256(slot, WrappingAdd64(tx.index, 1))
  }

  /** The account an accepted transfer leaves at `a`, its sender or its recipient, having read `before`
      there. The recipient is stored last, so a transfer to oneself stores the credited copy only. */
  function Written(tx: TxAccessList, a: Address, before: AccountWitness): AccountWitness {
    if a == tx.recipient then Credited(tx, before)
    else if a == tx.sender && Rejection(tx, before).None? then Debited(tx, before)
    else before
  }

  predicate Touches(tx: TxAccessList, a: Address) {
    a == tx.sender || a == tx.recipient
  }

  /** `tx` changes account `a`: it spends from it, or credits it with something. */
  predicate ChangesAccount(tx: TxAccessList, a: Address) {
    (a == tx.sender && a != tx.recipient) || (a == tx.recipient && tx.value != 0)
  }

  predicate WritesSlot(tx: TxAccessList, a: Address, slot: U256) {
    HasSlot(tx.writeSlots, a, slot)
  }

  /** The storage a transfer writes, address by address. */
  function SimulatedWrites(tx: TxAccessList): map<Address, map<U256, U256>> {
    map a | a in tx.writeSlots :: map slot | slot in tx.writeSlots[a] :: SlotValue(tx, slot)
  }

  /** Storage after merging the writes of one transfer; an address declared with no slot still
      gets an (empty) inner map, as `entry(addr).or_default()` does. */
  function MergeStorage(storage: map<Address, map<U256, U256>>, writes: map<Address, map<U256, U256>>)
    : map<Address, map<U256, U256>>
  {
    map a | a in storage.Keys + writes.Keys :: SlotsAt(storage, a) + SlotsAt(writes, a)
  }

  function SlotsAt(storage: map<Address, map<U256, U256>>, a: Address): map<U256, U256> {
    if a in storage then storage[a] else map[]
  }

  // ---------- one-at-a-time execution ----------

  predicate Admits(tx: TxAccessList, db: Db) {
    Rejection(tx, AccountOf(db, tx.sender)).None?
  }

  function Apply(tx: TxAccessList, db: Db): Db
    requires Admits(tx, db)
  {
    Db(db.accounts[tx.sender := Debited(tx, AccountOf(db, tx.sender))]
                  [tx.recipient := Credited(tx, AccountOf(db, tx.recipient))],
       MergeStorage(db.storage, SimulatedWrites(tx)))
  }

  function Serial(txs: seq<TxAccessList>, db: Db): Result<Db, ExecError> {
    if txs == [] then Ok(db)
    else match Rejection(txs[0], AccountOf(db, txs[0].sender))
      case Some(e) => Err(e)
      case None => Serial(txs[1..], Apply(txs[0], db))
  }

  lemma {:induction false} SerialConcat(s: seq<TxAccessList>, t: seq<TxAccessList>, db: Db)
    ensures Serial(s + t, db) == match Serial(s, db) case Ok(mid) => Serial(t, mid) case Err(e) => Err(e)
  {
    if s == [] {
      assert s + t == t;
    } else {
      assert (s + t)[1..] == s[1..] + t;
      if Admits(s[0], db) {
        SerialConcat(s[1..], t, Apply(s[0], db));
      }
    }
  }

  /** What one transfer does, lookup by lookup. */
  lemma ApplyLookups(tx: TxAccessList, db: Db, a: Address, slot: U256)
    requires Admits(tx, db)
    ensures AccountOf(Apply(tx, db), a) ==
            if Touches(tx, a) then Written(tx, a, AccountOf(db, a)) else AccountOf(db, a)
    ensures SlotOf(Apply(tx, db), a, slot) ==
            if WritesSlot(tx, a, slot) then SlotValue(tx, slot) else SlotOf(db, a, slot)
  {
  }

  // ---------- interference and reordering ----------

  /** Two transfers interfere when both touch an account or both write a slot. */
  ghost predicate Interferes(t: TxAccessList, u: TxAccessList) {
    Touches(t, u.sender) || Touches(t, u.recipient) || SlotsMeet(t.writeSlots, u.writeSlots)
  }
}
