/**
 `PevmExecutor` as a state machine. In a round every pending transfer has a thread; a thread reads
 all it needs atomically, under the mutex, at any time between the start of the round and its join.
 The main thread joins the threads in list order: it validates the versions read, then commits the
 transfer or leaves it for the next round.
 */
module Pevm {
  import opened Machine
  import opened State
  import opened Transfers
  import opened Ordering
  import opened Mvcc
  import opened CommitLog

  type Txs = seq<TxAccessList>

  const MAX_RETRIES: nat := 20

  /** What a thread hands to its join. */
  datatype ThreadResult =
    | Failed(error: ExecError)
    | Done(readAccounts: map<Address, Read<AccountWitness>>, readSlots: map<Slot, Read<U256>>,
           senderAcc: AccountWitness, recipientAcc: AccountWitness)

  function AccountsRead(tx: TxAccessList): set<Address> {
    {tx.sender, tx.recipient} + tx.readAddresses
  }

  function SlotsRead(tx: TxAccessList): set<Slot> {
    set a, slot | a in tx.readSlots && slot in tx.readSlots[a] :: (a, slot)
  }

  function RunThread(tx: TxAccessList, store: Store, db: Db): ThreadResult {
    var sender := ReadAccount(store, tx.index, tx.sender, db).val;
    match Rejection(tx, sender)
    case Some(e) => Failed(e)
    case None =>
      Done(map a | a in AccountsRead(tx) :: ReadAccount(store, tx.index, a, db),
           map k | k in SlotsRead(tx) :: ReadSlot(store, tx.index, k, db),
           Debited(tx, sender), Credited(tx, ReadAccount(store, tx.index, tx.recipient, db).val))
  }

  /** Every version read is still the version there is to read. */
  predicate Validates(res: ThreadResult, tx: TxAccessList, store: Store, db: Db)
    requires res.Done?
  {
    && (forall a :: a in res.readAccounts ==>
          ReadAccount(store, tx.index, a, db).version == res.readAccounts[a].version)
    && (forall k :: k in res.readSlots ==>
          ReadSlot(store, tx.index, k, db).version == res.readSlots[k].version)
  }

  /** A thread's result, with the length of the commit log when it took the mutex (history only). */
  datatype Snapshot = Snapshot(at: nat, result: ThreadResult)

  datatype Status = Running | Finished(error: Option<ExecError>)

  /**
   `log`, `rounds` and `start` are history: the transfers committed so far in commit order, the
   round of each commit, and the length of the log when the round began.
   */
  datatype Run = Run(
    store: Store,
    executed: seq<bool>,
    round: nat,
    cursor: nat,
    snaps: map<nat, Snapshot>,
    status: Status,
    log: Log,
    rounds: seq<nat>,
    start: nat)

  /** A thread takes its snapshot; the main thread joins the next thread; the main thread ends the round. */
  datatype Step = TakeSnapshot(i: nat) | Settle | EndRound

  function Initial(txs: Txs): Run {
    Run(EMPTY_STORE, seq(|txs|, i => false), 0, 0, map[], Running, [], [], 0)
  }

  predicate Enabled(txs: Txs, s: Run, step: Step) {
    && s.status.Running? && |s.executed| == |txs|
    && match step
       case TakeSnapshot(i) => s.cursor <= i < |txs| && !s.executed[i] && i !in s.snaps
       case Settle => s.cursor < |txs| && (s.executed[s.cursor] || s.cursor in s.snaps)
       case EndRound => s.cursor == |txs|
  }

  function CommitStep(tx: TxAccessList, s: Run, res: ThreadResult): Run
    requires res.Done? && s.cursor < |s.executed|
  {
    s.(store := CommitTo(s.store, tx, res.senderAcc, res.recipientAcc),
       executed := s.executed[s.cursor := true], cursor := s.cursor + 1,
       log := s.log + [tx], rounds := s.rounds + [s.round])
  }

  function SettleStep(txs: Txs, db: Db, s: Run): Run
    requires Enabled(txs, s, Settle)
  {
    var tx := txs[s.cursor];
    if s.executed[s.cursor] then s.(cursor := s.cursor + 1)
    else
      var res := s.snaps[s.cursor].result;
      if res.Failed? then s.(status := Finished(Some(res.error)))
      else if Validates(res, tx, s.store, db) then CommitStep(tx, s, res)
      else s.(store := ClearWrites(s.store, tx.index), cursor := s.cursor + 1)
  }

  function EndRoundStep(s: Run): Run {
    if forall i :: 0 <= i < |s.executed| ==> s.executed[i] then s.(status := Finished(None))
    else if s.round == MAX_RETRIES - 1 then s.(status := Finished(Some(FailedToConverge)))
    else s.(round := s.round + 1, cursor := 0, snaps := map[], start := |s.log|)
  }

  function Next(txs: Txs, db: Db, s: Run, step: Step): Run
    requires Enabled(txs, s, step)
  {
    match step
    case TakeSnapshot(i) => s.(snaps := s.snaps[i := Snapshot(|s.log|, RunThread(txs[i], s.store, db))])
    case Settle => SettleStep(txs, db, s)
    case EndRound => EndRoundStep(s)
  }

  /** The state after a schedule, if every step of it was enabled. */
  function AfterSteps(txs: Txs, db: Db, steps: seq<Step>): Option<Run> {
    if steps == [] then Some(Initial(txs))
    else match AfterSteps(txs, db, steps[..|steps| - 1])
      case None => None
      case Some(s) =>
        if Enabled(txs, s, steps[|steps| - 1]) then Some(Next(txs, db, s, steps[|steps| - 1])) else None
  }

  // ---------- the database of an Ok run ----------

  function LastValue<T>(vs: Versions<T>): T
    requires vs != []
  {
    vs[|vs| - 1].val
  }

  function FinalAccount(store: Store, db: Db, a: Address): AccountWitness {
    var vs := VersionsAt(store.accounts, a);
    if vs != [] then LastValue(vs) else AccountOf(db, a)
  }

  function FinalSlot(store: Store, db: Db, k: Slot): U256 {
    var vs := VersionsAt(store.slots, k);
    if vs != [] then LastValue<U256>(vs) else SlotOf(db, k.0, k.1)
  }

  /** `final` is the backing database with the last version of everything written, lookup by lookup. */
  ghost predicate Finalized(store: Store, db: Db, final: Db) {
    && (forall a: Address :: AccountOf(final, a) == FinalAccount(store, db, a))
    && (forall a: Address, slot: U256 :: SlotOf(final, a, slot) == FinalSlot(store, db, (a, slot)))
  }

  // ---------- what every step keeps ----------

  ghost predicate Shape(txs: Txs, s: Run) {
    && |s.executed| == |txs| && s.cursor <= |txs| && s.round < MAX_RETRIES
    && s.start <= |s.log| == |s.rounds|
  }

  /** The log holds exactly the executed transfers, each once. */
  ghost predicate LogMatches(txs: Txs, s: Run)
    requires Shape(txs, s)
  {
    && DistinctIndices(s.log)
    && (forall i :: 0 <= i < |txs| ==> (s.executed[i] <==> txs[i] in s.log))
    && (forall t :: t in s.log ==> t in txs)
  }

  /** Every commit was accepted on the accounts the log shows it. */
  ghost predicate LogAdmitted(log: Log, db: Db) {
    forall p :: 0 <= p < |log| ==> Rejection(log[p], Visible(log[..p], log[p].index, log[p].sender, db).acc).None?
  }

  /** A thread saw the store as it was at some point of this round. */
  ghost predicate SnapsGood(txs: Txs, db: Db, log: Log, start: nat, snaps: map<nat, Snapshot>) {
    forall i :: i in snaps ==> i < |txs| && start <= snaps[i].at && TakenFrom(txs[i], db, log, snaps[i])
  }

  ghost predicate TakenFrom(tx: TxAccessList, db: Db, log: Log, snap: Snapshot) {
    snap.at <= |log| && snap.result == RunThread(tx, StoreOf(log[..snap.at], db), db)
  }

  ghost predicate Inv(txs: Txs, db: Db, s: Run) {
    && Shape(txs, s) && LogMatches(txs, s) && LogAdmitted(s.log, db) && SnapsGood(txs, db, s.log, s.start, s.snaps)
    && s.store == StoreOf(s.log, db)
  }

  // ---------- reading the store is reading the log ----------

  /** `usize::MAX` stands for the backing database; no writer below a reader has that index. */
  function VersionNumber(writer: int): int {
    if writer == -1 then NO_VERSION else writer
  }

  lemma {:induction false} StoreReads(log: Log, db: Db, tx: TxAccessList, a: Address)
    requires DistinctIndices(log)
    ensures var seen := Visible(log, tx.index, a, db);
            ReadAccount(StoreOf(log, db), tx.index, a, db).version == VersionNumber(seen.writer)
            && ReadAccount(StoreOf(log, db), tx.index, a, db).val == seen.acc
  {
    StoreHoldsLog(log, db, a);
    assert ReadsAs(VersionsAt(StoreOf(log, db).accounts, a), Visible(log, tx.index, a, db), tx.index);
    VisibleIsGreatest(log, tx.index, a, db);
  }

  lemma {:induction false} StoreReadsSlot(log: Log, db: Db, tx: TxAccessList, k: Slot)
    requires DistinctIndices(log)
    ensures var seen := VisibleSlot(log, tx.index, k, db);
            ReadSlot(StoreOf(log, db), tx.index, k, db).version == VersionNumber(seen.writer)
            && ReadSlot(StoreOf(log, db), tx.index, k, db).val == seen.val
  {
    StoreHoldsSlots(log, db, k);
    assert ReadsSlotAs(VersionsAt(StoreOf(log, db).slots, k), VisibleSlot(log, tx.index, k, db), tx.index);
    SlotBacking(log, tx.index, k, db);
  }

  lemma PrefixDistinct(log: Log, q: nat)
    requires DistinctIndices(log) && q <= |log|
    ensures DistinctIndices(log[..q])
  {
  }

  /** Equal versions at two points of the log mean equal accounts. */
  lemma {:induction false} EqualVersionsEqualAccounts(log: Log, q: nat, db: Db, tx: TxAccessList, a: Address)
    requires DistinctIndices(log) && q <= |log|
    requires ReadAccount(StoreOf(log[..q], db), tx.index, a, db).version
            == ReadAccount(StoreOf(log, db), tx.index, a, db).version
    ensures Visible(log[..q], tx.index, a, db) == Visible(log, tx.index, a, db)
  {
    PrefixDistinct(log, q);
    StoreReads(log[..q], db, tx, a);
    StoreReads(log, db, tx, a);
    VisibleIsGreatest(log[..q], tx.index, a, db);
    VisibleIsGreatest(log, tx.index, a, db);
    VersionsOnlyRise(log, q, tx.index, a, db);
  }

  /** Equal slot versions at two points of the log mean equal values. */
  lemma {:induction false} EqualVersionsEqualSlots(log: Log, q: nat, db: Db, tx: TxAccessList, k: Slot)
    requires DistinctIndices(log) && q <= |log|
    requires ReadSlot(StoreOf(log[..q], db), tx.index, k, db).version
            == ReadSlot(StoreOf(log, db), tx.index, k, db).version
    ensures ReadSlot(StoreOf(log[..q], db), tx.index, k, db) == ReadSlot(StoreOf(log, db), tx.index, k, db)
  {
    PrefixDistinct(log, q);
    StoreReadsSlot(log[..q], db, tx, k);
    StoreReadsSlot(log, db, tx, k);
    VisibleSlotIsGreatest(log[..q], tx.index, k, db);
    VisibleSlotIsGreatest(log, tx.index, k, db);
    SlotVersionsOnlyRise(log, q, tx.index, k, db);
  }

  /** A validated commit is as good as one that reads at the moment it commits. */
  lemma {:induction false} ValidatedRead(log: Log, q: nat, tx: TxAccessList, db: Db)
    requires DistinctIndices(log) && q <= |log|
    requires RunThread(tx, StoreOf(log[..q], db), db).Done?
    requires Validates(RunThread(tx, StoreOf(log[..q], db), db), tx, StoreOf(log, db), db)
    ensures var res, sender := RunThread(tx, StoreOf(log[..q], db), db), Visible(log, tx.index, tx.sender, db).acc;
            && Rejection(tx, sender).None? && res.senderAcc == Debited(tx, sender)
            && res.recipientAcc == Credited(tx, Visible(log, tx.index, tx.recipient, db).acc)
  {
    var past, now := StoreOf(log[..q], db), StoreOf(log, db);
    ThreadReads(tx, past, now, db, tx.sender);
    ThreadReads(tx, past, now, db, tx.recipient);
    ValidatedAccount(log, q, tx, db, tx.sender);
    ValidatedAccount(log, q, tx, db, tx.recipient);
  }

  /** A thread records the version of every account it reads, its own two among them. */
  lemma ThreadReads(tx: TxAccessList, past: Store, now: Store, db: Db, a: Address)
    requires RunThread(tx, past, db).Done? && Validates(RunThread(tx, past, db), tx, now, db)
    requires Touches(tx, a)
    ensures ReadAccount(past, tx.index, a, db).version == ReadAccount(now, tx.index, a, db).version
    ensures var res, sender := RunThread(tx, past, db), ReadAccount(past, tx.index, tx.sender, db).val;
            && Rejection(tx, sender).None? && res.senderAcc == Debited(tx, sender)
            && res.recipientAcc == Credited(tx, ReadAccount(past, tx.index, tx.recipient, db).val)
  {
    assert a in RunThread(tx, past, db).readAccounts;
  }

  lemma {:induction false} ValidatedAccount(log: Log, q: nat, tx: TxAccessList, db: Db, a: Address)
    requires DistinctIndices(log) && q <= |log|
    requires ReadAccount(StoreOf(log[..q], db), tx.index, a, db).version
            == ReadAccount(StoreOf(log, db), tx.index, a, db).version
    ensures ReadAccount(StoreOf(log[..q], db), tx.index, a, db).val == Visible(log, tx.index, a, db).acc
  {
    EqualVersionsEqualAccounts(log, q, db, tx, a);
    PrefixDistinct(log, q);
    StoreReads(log[..q], db, tx, a);
  }

  lemma {:induction false} ClearAccountsIsIdle(log: Log, db: Db, index: usize, a: Address)
    requires DistinctIndices(log) && forall p :: 0 <= p < |log| ==> log[p].index != index
    ensures Without(VersionsAt(StoreOf(log, db).accounts, a), index) == VersionsAt(StoreOf(log, db).accounts, a)
  {
    StoreHoldsLog(log, db, a);
    assert HasWriter(VersionsAt(StoreOf(log, db).accounts, a), index) <==> CommittedTouch(log, a, index);
    WithoutAbsent(VersionsAt(StoreOf(log, db).accounts, a), index);
  }

  lemma {:induction false} ClearSlotsIsIdle(log: Log, db: Db, index: usize, k: Slot)
    requires DistinctIndices(log) && forall p :: 0 <= p < |log| ==> log[p].index != index
    ensures Without(VersionsAt(StoreOf(log, db).slots, k), index) == VersionsAt(StoreOf(log, db).slots, k)
  {
    StoreHoldsSlots(log, db, k);
    assert HasWriter(VersionsAt(StoreOf(log, db).slots, k), index) <==> CommittedSlotWrite(log, k, index);
    WithoutAbsent(VersionsAt(StoreOf(log, db).slots, k), index);
  }

  /** `clear_writes` on a transfer that has not committed removes nothing. */
  lemma {:induction false} ClearWritesIsIdle(log: Log, db: Db, index: usize)
    requires DistinctIndices(log) && forall p :: 0 <= p < |log| ==> log[p].index != index
    ensures ClearWrites(StoreOf(log, db), index) == StoreOf(log, db)
  {
    var store := StoreOf(log, db);
    forall a | a in store.accounts ensures Without(store.accounts[a], index) == store.accounts[a] {
      ClearAccountsIsIdle(log, db, index, a);
    }
    forall k | k in store.slots ensures Without(store.slots[k], index) == store.slots[k] {
      ClearSlotsIsIdle(log, db, index, k);
    }
    IdleClear(store, index);
  }

  lemma IdleClear(store: Store, index: usize)
    requires forall a :: a in store.accounts ==> Without(store.accounts[a], index) == store.accounts[a]
    requires forall k :: k in store.slots ==> Without(store.slots[k], index) == store.slots[k]
    ensures ClearWrites(store, index) == store
  {
  }

  lemma PendingNotLogged(txs: Txs, s: Run, i: nat)
    requires DistinctIndices(txs) && Shape(txs, s) && LogMatches(txs, s) && i < |txs| && !s.executed[i]
    ensures forall p :: 0 <= p < |s.log| ==> s.log[p].index != txs[i].index
  {
    forall p | 0 <= p < |s.log| ensures s.log[p].index != txs[i].index {
      assert s.log[p] in txs;
      var j :| 0 <= j < |txs| && txs[j] == s.log[p];
    }
  }

  lemma CommitKeepsMatches(txs: Txs, s: Run, res: ThreadResult)
    requires DistinctIndices(txs) && Shape(txs, s) && LogMatches(txs, s)
    requires s.cursor < |txs| && !s.executed[s.cursor] && res.Done?
    ensures LogMatches(txs, CommitStep(txs[s.cursor], s, res))
  {
    var tx, s' := txs[s.cursor], CommitStep(txs[s.cursor], s, res);
    PendingNotLogged(txs, s, s.cursor);
    forall i | 0 <= i < |txs| ensures s'.executed[i] <==> txs[i] in s'.log {
      if i != s.cursor { assert txs[i].index != tx.index; }
    }
  }

  lemma {:induction false} AdmitOne(log: Log, tx: TxAccessList, db: Db)
    requires LogAdmitted(log, db) && Rejection(tx, Visible(log, tx.index, tx.sender, db).acc).None?
    ensures LogAdmitted(log + [tx], db)
  {
    var log' := log + [tx];
    forall p | 0 <= p < |log'|
      ensures Rejection(log'[p], Visible(log'[..p], log'[p].index, log'[p].sender, db).acc).None?
    {
      if p < |log| {
        assert log'[..p] == log[..p] && log'[p] == log[p];
      } else {
        assert log'[..p] == log;
      }
    }
  }

  lemma CommitExtendsStore(log: Log, tx: TxAccessList, db: Db)
    requires Rejection(tx, Visible(log, tx.index, tx.sender, db).acc).None?
    ensures StoreOf(log + [tx], db) ==
            CommitTo(StoreOf(log, db), tx, Debited(tx, Visible(log, tx.index, tx.sender, db).acc),
                     Credited(tx, Visible(log, tx.index, tx.recipient, db).acc))
  {
    assert (log + [tx])[..|log|] == log;
  }

  lemma {:induction false} LongerLogKeepsTaken(t: TxAccessList, db: Db, log: Log, snap: Snapshot, tx: TxAccessList)
    requires TakenFrom(t, db, log, snap)
    ensures TakenFrom(t, db, log + [tx], snap)
  {
    assert (log + [tx])[..snap.at] == log[..snap.at];
  }

  lemma {:induction false} LongerLogKeepsSnaps(txs: Txs, db: Db, log: Log, start: nat,
                                               snaps: map<nat, Snapshot>, tx: TxAccessList)
    requires SnapsGood(txs, db, log, start, snaps)
    ensures SnapsGood(txs, db, log + [tx], start, snaps)
  {
    forall i | i in snaps ensures TakenFrom(txs[i], db, log + [tx], snaps[i]) {
      assert TakenFrom(txs[i], db, log, snaps[i]);
      LongerLogKeepsTaken(txs[i], db, log, snaps[i], tx);
    }
  }

  lemma {:induction false} CommitKeepsInv(txs: Txs, db: Db, s: Run)
    requires DistinctIndices(txs) && Inv(txs, db, s) && Enabled(txs, s, Settle) && !s.executed[s.cursor]
    requires s.snaps[s.cursor].result.Done? && Validates(s.snaps[s.cursor].result, txs[s.cursor], s.store, db)
    ensures Inv(txs, db, CommitStep(txs[s.cursor], s, s.snaps[s.cursor].result))
  {
    var tx, snap := txs[s.cursor], s.snaps[s.cursor];
    assert TakenFrom(tx, db, s.log, snap);
    ValidatedRead(s.log, snap.at, tx, db);
    CommitKeepsMatches(txs, s, snap.result);
    LongerLogKeepsSnaps(txs, db, s.log, s.start, s.snaps, tx);
    AdmitOne(s.log, tx, db);
    CommitExtendsStore(s.log, tx, db);
  }

  lemma {:induction false} SnapshotIsTaken(tx: TxAccessList, db: Db, log: Log)
    ensures TakenFrom(tx, db, log, Snapshot(|log|, RunThread(tx, StoreOf(log, db), db)))
  {
    assert log[..|log|] == log;
  }

  lemma {:induction false} SnapshotKeepsInv(txs: Txs, db: Db, s: Run, i: nat)
    requires Inv(txs, db, s) && Enabled(txs, s, TakeSnapshot(i))
    ensures Inv(txs, db, Next(txs, db, s, TakeSnapshot(i)))
  {
    var snap := Snapshot(|s.log|, RunThread(txs[i], s.store, db));
    SnapshotIsTaken(txs[i], db, s.log);
    OneMoreSnap(txs, db, s.log, s.start, s.snaps, i, snap);
    SnapsFrame(txs, db, s, s.snaps[i := snap]);
  }

  lemma OneMoreSnap(txs: Txs, db: Db, log: Log, start: nat, snaps: map<nat, Snapshot>, i: nat, snap: Snapshot)
    requires SnapsGood(txs, db, log, start, snaps) && i < |txs| && start <= snap.at && TakenFrom(txs[i], db, log, snap)
    ensures SnapsGood(txs, db, log, start, snaps[i := snap])
  {
    var more := snaps[i := snap];
    forall j | j in more ensures j < |txs| && start <= more[j].at && TakenFrom(txs[j], db, log, more[j]) {
      assert more[j] == if j == i then snap else snaps[j];
    }
  }

  lemma SnapsFrame(txs: Txs, db: Db, s: Run, snaps: map<nat, Snapshot>)
    requires Inv(txs, db, s) && SnapsGood(txs, db, s.log, s.start, snaps)
    ensures Inv(txs, db, s.(snaps := snaps))
  {
  }

  /** The invariant speaks of the history, the threads and the store only. */
  lemma InvFrame(txs: Txs, db: Db, s: Run, s': Run)
    requires Inv(txs, db, s) && s' == s.(cursor := s'.cursor, status := s'.status) && s'.cursor <= |txs|
    ensures Inv(txs, db, s')
  {
  }

  lemma {:induction false} SettleKeepsInv(txs: Txs, db: Db, s: Run)
    requires DistinctIndices(txs) && Inv(txs, db, s) && Enabled(txs, s, Settle)
    ensures Inv(txs, db, SettleStep(txs, db, s))
  {
    var tx := txs[s.cursor];
    if s.executed[s.cursor] || s.snaps[s.cursor].result.Failed? {
      InvFrame(txs, db, s, SettleStep(txs, db, s));
    } else if Validates(s.snaps[s.cursor].result, tx, s.store, db) {
      CommitKeepsInv(txs, db, s);
    } else {
      PendingNotLogged(txs, s, s.cursor);
      ClearWritesIsIdle(s.log, db, tx.index);
      InvFrame(txs, db, s, SettleStep(txs, db, s));
    }
  }

  lemma EndRoundKeepsInv(txs: Txs, db: Db, s: Run)
    requires Inv(txs, db, s) && Enabled(txs, s, EndRound)
    ensures Inv(txs, db, EndRoundStep(s))
  {
  }

  lemma {:induction false} StepKeepsInv(txs: Txs, db: Db, s: Run, step: Step)
    requires DistinctIndices(txs) && Inv(txs, db, s) && Enabled(txs, s, step)
    ensures Inv(txs, db, Next(txs, db, s, step))
  {
    match step
    case TakeSnapshot(i) => SnapshotKeepsInv(txs, db, s, i);
    case Settle => SettleKeepsInv(txs, db, s);
    case EndRound => EndRoundKeepsInv(txs, db, s);
  }

  /** Every schedule keeps the invariant: the store is always exactly the committed history. */
  lemma {:induction false} ReachableInv(txs: Txs, db: Db, steps: seq<Step>)
    requires DistinctIndices(txs) && AfterSteps(txs, db, steps).Some?
    ensures Inv(txs, db, AfterSteps(txs, db, steps).value)
  {
    if steps != [] {
      ReachableInv(txs, db, steps[..|steps| - 1]);
      StepKeepsInv(txs, db, AfterSteps(txs, db, steps[..|steps| - 1]).value, steps[|steps| - 1]);
    }
  }
}
