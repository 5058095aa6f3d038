/**
 The history of an optimistic run: the transfers in the order they were committed. It determines
 the whole multi-version store, so what the store holds and what a read returns can be said of it.
 */
module CommitLog {
  import opened Machine
  import opened State
  import opened Transfers
  import opened Ordering
  import opened Mvcc

  type Log = seq<TxAccessList>

  /** What a reader finds: the committed writer it reads from (-1 for the backing database) and the account. */
  datatype Seen = Seen(writer: int, acc: AccountWitness)

  /**
   Account `a` as a transfer with index `reader` sees it: the value written by the greatest
   committed writer below the reader. A writer's value was computed when it was committed, from
   the log as it stood then.
   */
  ghost function Visible(log: Log, reader: nat, a: Address, db: Db): Seen
    decreases |log|
  {
    if log == [] then Seen(-1, AccountOf(db, a))
    else
      var rest, t := log[..|log| - 1], log[|log| - 1];
      var seen := Visible(rest, reader, a, db);
      if Touches(t, a) && seen.writer < t.index < reader
      then Seen(t.index, Written(t, a, Visible(rest, t.index, a, db).acc))
      else seen
  }

  datatype SeenSlot = SeenSlot(writer: int, val: U256)

  ghost function VisibleSlot(log: Log, reader: nat, k: Slot, db: Db): SeenSlot {
    if log == [] then SeenSlot(-1, SlotOf(db, k.0, k.1))
    else
      var rest, t := log[..|log| - 1], log[|log| - 1];
      var seen := VisibleSlot(rest, reader, k, db);
      if WritesSlot(t, k.0, k.1) && seen.writer < t.index < reader then SeenSlot(t.index, SlotValue(t, k.1)) else seen
  }

  /** The greatest committed writer of `a` below the reader, and nothing in between. */
  lemma {:induction false} VisibleIsGreatest(log: Log, reader: nat, a: Address, db: Db)
    ensures var w := Visible(log, reader, a, db).writer;
            && w < reader
            && (w == -1 || exists p :: 0 <= p < |log| && log[p].index == w && Touches(log[p], a))
            && (forall p :: 0 <= p < |log| && Touches(log[p], a) && log[p].index < reader ==> log[p].index <= w)
    ensures Visible(log, reader, a, db).writer == -1 ==> Visible(log, reader, a, db).acc == AccountOf(db, a)
  {
    if log != [] {
      var rest := log[..|log| - 1];
      VisibleIsGreatest(rest, reader, a, db);
      if Visible(log, reader, a, db) == Visible(rest, reader, a, db) && Visible(rest, reader, a, db).writer != -1 {
        var p :| 0 <= p < |rest| && rest[p].index == Visible(rest, reader, a, db).writer && Touches(rest[p], a);
        assert log[p] == rest[p];
      }
      forall p | 0 <= p < |log| && Touches(log[p], a) && log[p].index < reader
        ensures log[p].index <= Visible(log, reader, a, db).writer
      {
        if p < |rest| { assert rest[p] == log[p]; }
      }
    }
  }

  lemma {:induction false} VisibleSlotIsGreatest(log: Log, reader: nat, k: Slot, db: Db)
    ensures var w := VisibleSlot(log, reader, k, db).writer;
            && w < reader
            && (w == -1 || exists p :: 0 <= p < |log| && log[p].index == w && WritesSlot(log[p], k.0, k.1))
            && (forall p :: 0 <= p < |log| && WritesSlot(log[p], k.0, k.1) && log[p].index < reader
                        ==> log[p].index <= w)
  {
    if log != [] {
      var rest := log[..|log| - 1];
      VisibleSlotIsGreatest(rest, reader, k, db);
      var seen := VisibleSlot(rest, reader, k, db);
      if VisibleSlot(log, reader, k, db) == seen && seen.writer != -1 {
        var p :| 0 <= p < |rest| && rest[p].index == seen.writer && WritesSlot(rest[p], k.0, k.1);
        assert log[p] == rest[p];
      }
      forall p | 0 <= p < |log| && WritesSlot(log[p], k.0, k.1) && log[p].index < reader
        ensures log[p].index <= VisibleSlot(log, reader, k, db).writer
      {
        if p < |rest| { assert rest[p] == log[p]; }
      }
    }
  }

  lemma {:induction false} SlotBacking(log: Log, reader: nat, k: Slot, db: Db)
    ensures var seen := VisibleSlot(log, reader, k, db);
            if seen.writer == -1 then seen.val == SlotOf(db, k.0, k.1)
            else exists p :: 0 <= p < |log| && log[p].index == seen.writer && WritesSlot(log[p], k.0, k.1)
                             && seen.val == SlotValue(log[p], k.1)
  {
    if log != [] {
      var rest, t := log[..|log| - 1], log[|log| - 1];
      SlotBacking(rest, reader, k, db);
      var seen := VisibleSlot(rest, reader, k, db);
      if VisibleSlot(log, reader, k, db) == seen && seen.writer != -1 {
        var p :| 0 <= p < |rest| && rest[p].index == seen.writer && WritesSlot(rest[p], k.0, k.1)
                 && seen.val == SlotValue(rest[p], k.1);
        assert log[p] == rest[p];
      } else {
        assert log[|rest|] == t;
      }
    }
  }

  /** Growing the log can only raise the version seen; if it is the same, so is the account. */
  lemma {:induction false} VersionsOnlyRise(log: Log, q: nat, reader: nat, a: Address, db: Db)
    requires q <= |log|
    ensures Visible(log[..q], reader, a, db).writer <= Visible(log, reader, a, db).writer
    ensures Visible(log[..q], reader, a, db).writer == Visible(log, reader, a, db).writer
            ==> Visible(log[..q], reader, a, db) == Visible(log, reader, a, db)
  {
    if q == |log| {
      assert log[..q] == log;
    } else {
      var rest := log[..|log| - 1];
      VersionsOnlyRise(rest, q, reader, a, db);
      assert rest[..q] == log[..q];
    }
  }

  lemma {:induction false} SlotVersionsOnlyRise(log: Log, q: nat, reader: nat, k: Slot, db: Db)
    requires q <= |log|
    ensures VisibleSlot(log[..q], reader, k, db).writer <= VisibleSlot(log, reader, k, db).writer
    ensures VisibleSlot(log[..q], reader, k, db).writer == VisibleSlot(log, reader, k, db).writer
            ==> VisibleSlot(log[..q], reader, k, db) == VisibleSlot(log, reader, k, db)
  {
    if q == |log| {
      assert log[..q] == log;
    } else {
      var rest := log[..|log| - 1];
      SlotVersionsOnlyRise(rest, q, reader, k, db);
      assert rest[..q] == log[..q];
    }
  }

  // ---------- the store a log leaves ----------

  function SlotKeys(t: TxAccessList): set<Slot> {
    set a, slot | a in t.writeSlots && slot in t.writeSlots[a] :: (a, slot)
  }

  /** Committing a transfer: both accounts, then the slots. */
  function CommitTo(store: Store, t: TxAccessList, senderAcc: AccountWitness, recipientAcc: AccountWitness): Store {
    var store' := WriteAccount(WriteAccount(store, t.index, t.sender, senderAcc), t.index, t.recipient, recipientAcc);
    store'.(slots := map k | k in store.slots.Keys + SlotKeys(t) ::
              if k in SlotKeys(t) then Put(VersionsAt(store.slots, k), t.index, SlotValue(t, k.1)) else store.slots[k])
  }

  function AfterDebit(t: TxAccessList, sender: AccountWitness): AccountWitness {
    if Rejection(t, sender).None? then Debited(t, sender) else sender
  }

  ghost function StoreOf(log: Log, db: Db): Store {
    if log == [] then EMPTY_STORE
    else
      var rest, t := log[..|log| - 1], log[|log| - 1];
      CommitTo(StoreOf(rest, db), t, AfterDebit(t, Visible(rest, t.index, t.sender, db).acc),
               Credited(t, Visible(rest, t.index, t.recipient, db).acc))
  }

  ghost predicate CommittedTouch(log: Log, a: Address, w: usize) {
    exists p :: 0 <= p < |log| && log[p].index == w && Touches(log[p], a)
  }

  ghost predicate CommittedSlotWrite(log: Log, k: Slot, w: usize) {
    exists p :: 0 <= p < |log| && log[p].index == w && WritesSlot(log[p], k.0, k.1)
  }

  lemma CommittedSnoc(log: Log, t: TxAccessList, a: Address, k: Slot, w: usize)
    ensures CommittedTouch(log + [t], a, w) <==> CommittedTouch(log, a, w) || (w == t.index && Touches(t, a))
    ensures CommittedSlotWrite(log + [t], k, w) <==>
            CommittedSlotWrite(log, k, w) || (w == t.index && WritesSlot(t, k.0, k.1))
  {
    assert (log + [t])[|log|] == t;
    if CommittedTouch(log, a, w) {
      var p :| 0 <= p < |log| && log[p].index == w && Touches(log[p], a);
      assert (log + [t])[p] == log[p];
    }
    if CommittedSlotWrite(log, k, w) {
      var p :| 0 <= p < |log| && log[p].index == w && WritesSlot(log[p], k.0, k.1);
      assert (log + [t])[p] == log[p];
    }
  }

  lemma FreshIndex(log: Log, t: TxAccessList, a: Address, k: Slot)
    requires DistinctIndices(log + [t])
    ensures !CommittedTouch(log, a, t.index) && !CommittedSlotWrite(log, k, t.index)
  {
    forall p | 0 <= p < |log| ensures log[p].index != t.index {
      assert (log + [t])[p].index != (log + [t])[|log|].index;
    }
  }

  ghost predicate ReadsAs(vs: Versions<AccountWitness>, seen: Seen, reader: nat) {
    match LatestBelow(vs, reader)
    case None => seen.writer == -1
    case Some(v) => v.writer == seen.writer && v.val == seen.acc
  }

  ghost predicate ReadsSlotAs(vs: Versions<U256>, seen: SeenSlot, reader: nat) {
    match LatestBelow(vs, reader)
    case None => seen.writer == -1
    case Some(v) => v.writer == seen.writer && v.val == seen.val
  }

  /** A list of account versions is sorted, has exactly the committed writers of `a`, and reads as the log says. */
  ghost predicate HoldsAccount(vs: Versions<AccountWitness>, log: Log, a: Address, db: Db) {
    && StrictlySorted(vs)
    && (forall w: usize :: HasWriter(vs, w) <==> CommittedTouch(log, a, w))
    && (forall reader: nat :: ReadsAs(vs, Visible(log, reader, a, db), reader))
  }

  ghost predicate HoldsSlot(vs: Versions<U256>, log: Log, k: Slot, db: Db) {
    && StrictlySorted(vs)
    && (forall w: usize :: HasWriter(vs, w) <==> CommittedSlotWrite(log, k, w))
    && (forall reader: nat :: ReadsSlotAs(vs, VisibleSlot(log, reader, k, db), reader))
  }

  lemma {:induction false} AccountCommitted(vs: Versions<AccountWitness>, log: Log, t: TxAccessList, a: Address, db: Db)
    requires DistinctIndices(log + [t]) && Touches(t, a) && HoldsAccount(vs, log, a, db)
    ensures !HasWriter(vs, t.index)
    ensures HoldsAccount(Put(vs, t.index, Written(t, a, Visible(log, t.index, a, db).acc)), log + [t], a, db)
  {
    var x := Version(t.index, Written(t, a, Visible(log, t.index, a, db).acc));
    FreshIndex(log, t, a, (0, 0));
    PutNew(vs, x.writer, x.val);
    InsertVersion(vs, x);
    var vs' := Put(vs, x.writer, x.val);
    forall w: usize ensures HasWriter(vs', w) <==> CommittedTouch(log + [t], a, w) {
      CommittedSnoc(log, t, a, (0, 0), w);
    }
    assert (log + [t])[..|log|] == log;
    forall reader: nat ensures ReadsAs(vs', Visible(log + [t], reader, a, db), reader) {
      assert ReadsAs(vs, Visible(log, reader, a, db), reader);
      VisibleIsGreatest(log, reader, a, db);
    }
  }

  lemma {:induction false} SlotCommitted(vs: Versions<U256>, log: Log, t: TxAccessList, k: Slot, db: Db)
    requires DistinctIndices(log + [t]) && WritesSlot(t, k.0, k.1) && HoldsSlot(vs, log, k, db)
    ensures HoldsSlot(Put(vs, t.index, SlotValue(t, k.1)), log + [t], k, db)
  {
    var x := Version(t.index, SlotValue(t, k.1));
    FreshIndex(log, t, 0, k);
    PutNew(vs, x.writer, x.val);
    InsertVersion(vs, x);
    var vs' := Put(vs, x.writer, x.val);
    forall w: usize ensures HasWriter(vs', w) <==> CommittedSlotWrite(log + [t], k, w) {
      CommittedSnoc(log, t, 0, k, w);
    }
    assert (log + [t])[..|log|] == log;
    forall reader: nat ensures ReadsSlotAs(vs', VisibleSlot(log + [t], reader, k, db), reader) {
      assert ReadsSlotAs(vs, VisibleSlot(log, reader, k, db), reader);
    }
  }

  lemma Untouched(vs: Versions<AccountWitness>, log: Log, t: TxAccessList, a: Address, db: Db)
    requires !Touches(t, a) && HoldsAccount(vs, log, a, db)
    ensures HoldsAccount(vs, log + [t], a, db)
  {
    assert (log + [t])[..|log|] == log;
    forall w: usize ensures HasWriter(vs, w) <==> CommittedTouch(log + [t], a, w) {
      CommittedSnoc(log, t, a, (0, 0), w);
    }
    forall reader: nat ensures ReadsAs(vs, Visible(log + [t], reader, a, db), reader) {
      assert ReadsAs(vs, Visible(log, reader, a, db), reader);
    }
  }

  lemma UntouchedSlot(vs: Versions<U256>, log: Log, t: TxAccessList, k: Slot, db: Db)
    requires !WritesSlot(t, k.0, k.1) && HoldsSlot(vs, log, k, db)
    ensures HoldsSlot(vs, log + [t], k, db)
  {
    assert (log + [t])[..|log|] == log;
    forall w: usize ensures HasWriter(vs, w) <==> CommittedSlotWrite(log + [t], k, w) {
      CommittedSnoc(log, t, 0, k, w);
    }
    forall reader: nat ensures ReadsSlotAs(vs, VisibleSlot(log + [t], reader, k, db), reader) {
      assert ReadsSlotAs(vs, VisibleSlot(log, reader, k, db), reader);
    }
  }

  /** One commit, list by list. */
  lemma CommitToAt(store: Store, t: TxAccessList, senderAcc: AccountWitness, recipientAcc: AccountWitness, a: Address)
    requires var vs := VersionsAt(store.accounts, a); StrictlySorted(vs) && (Touches(t, a) ==> !HasWriter(vs, t.index))
    ensures VersionsAt(CommitTo(store, t, senderAcc, recipientAcc).accounts, a) ==
            if a == t.recipient then Put(VersionsAt(store.accounts, a), t.index, recipientAcc)
            else if a == t.sender then Put(VersionsAt(store.accounts, a), t.index, senderAcc)
            else VersionsAt(store.accounts, a)
  {
    if a == t.sender == t.recipient {
      PutTwice(VersionsAt(store.accounts, a), t.index, senderAcc, recipientAcc);
    }
  }

  /** The store after any history: every version list is sorted and holds exactly the committed writes. */
  lemma {:induction false} StoreHoldsLog(log: Log, db: Db, a: Address)
    requires DistinctIndices(log)
    ensures HoldsAccount(VersionsAt(StoreOf(log, db).accounts, a), log, a, db)
  {
    if log == [] {
      assert forall reader: nat :: Visible([], reader, a, db).writer == -1;
    } else {
      var rest, t := log[..|log| - 1], log[|log| - 1];
      assert log == rest + [t];
      StoreHoldsLog(rest, db, a);
      var vs := VersionsAt(StoreOf(rest, db).accounts, a);
      if Touches(t, a) {
        AccountCommitted(vs, rest, t, a, db);
      } else {
        Untouched(vs, rest, t, a, db);
      }
      CommitToAt(StoreOf(rest, db), t, AfterDebit(t, Visible(rest, t.index, t.sender, db).acc),
                 Credited(t, Visible(rest, t.index, t.recipient, db).acc), a);
    }
  }

  lemma {:induction false} StoreHoldsSlots(log: Log, db: Db, k: Slot)
    requires DistinctIndices(log)
    ensures HoldsSlot(VersionsAt(StoreOf(log, db).slots, k), log, k, db)
  {
    if log == [] {
      assert forall reader: nat :: VisibleSlot([], reader, k, db).writer == -1;
    } else {
      var rest, t := log[..|log| - 1], log[|log| - 1];
      assert log == rest + [t];
      StoreHoldsSlots(rest, db, k);
      var vs := VersionsAt(StoreOf(rest, db).slots, k);
      if WritesSlot(t, k.0, k.1) {
        assert k in SlotKeys(t);
        SlotCommitted(vs, rest, t, k, db);
      } else {
        assert k !in SlotKeys(t);
        UntouchedSlot(vs, rest, t, k, db);
      }
    }
  }
}
