/** Building schedules of the optimistic engine step by step. */
module PevmSchedules {
  import opened Machine
  import opened State
  import opened Transfers
  import opened Ordering
  import opened Mvcc
  import opened CommitLog
  import opened Pevm
  import opened PevmConvergence

  ghost predicate Reachable(txs: Txs, db: Db, s: Run) {
    exists steps :: AfterSteps(txs, db, steps) == Some(s)
  }

  ghost predicate Live(txs: Txs, db: Db, s: Run) {
    DistinctIndices(txs) && Reachable(txs, db, s) && s.status == Running && |s.executed| == |txs|
  }

  lemma {:induction false} Do(txs: Txs, db: Db, s: Run, step: Step) returns (s': Run)
    requires Live(txs, db, s) && Enabled(txs, s, step)
    ensures s' == Next(txs, db, s, step) && Reachable(txs, db, s')
  {
    var steps :| AfterSteps(txs, db, steps) == Some(s);
    assert (steps + [step])[..|steps|] == steps;
    s' := Next(txs, db, s, step);
    assert AfterSteps(txs, db, steps + [step]) == Some(s');
  }

  lemma {:induction false} Start(txs: Txs, db: Db) returns (s: Run)
    requires DistinctIndices(txs)
    ensures Live(txs, db, s) && s.executed == seq(|txs|, i => false) && s.cursor == 0 && s.round == 0
    ensures s.store == EMPTY_STORE && s.snaps == map[] && s.log == [] && s.start == 0
  {
    s := Initial(txs);
    assert AfterSteps(txs, db, []) == Some(s);
  }

  lemma {:induction false} StoreAt(txs: Txs, db: Db, s: Run)
    requires Live(txs, db, s)
    ensures s.store == StoreOf(s.log, db) && DistinctIndices(s.log)
  {
    var steps :| AfterSteps(txs, db, steps) == Some(s);
    ReachableInv(txs, db, steps);
  }

  /** The transfer meets no error on the accounts this log shows it. */
  ghost predicate AdmitsAt(log: Log, tx: TxAccessList, db: Db) {
    Rejection(tx, Visible(log, tx.index, tx.sender, db).acc).None?
  }

  lemma {:induction false} Accepted(log: Log, tx: TxAccessList, db: Db)
    requires DistinctIndices(log) && AdmitsAt(log, tx, db)
    ensures RunThread(tx, StoreOf(log, db), db).Done?
  {
    StoreReads(log, db, tx, tx.sender);
  }

  lemma PresentReadsValidate(tx: TxAccessList, store: Store, db: Db)
    requires RunThread(tx, store, db).Done?
    ensures Validates(RunThread(tx, store, db), tx, store, db)
  {
  }

  /** Joining the thread that has just read commits it. */
  lemma FreshJoin(txs: Txs, db: Db, s: Run)
    requires s.status == Running && |s.executed| == |txs| && s.cursor < |txs| && !s.executed[s.cursor]
    requires RunThread(txs[s.cursor], s.store, db).Done?
    ensures var result := RunThread(txs[s.cursor], s.store, db);
            var mid := s.(snaps := s.snaps[s.cursor := Snapshot(|s.log|, result)]);
            Enabled(txs, mid, Settle) && SettleStep(txs, db, mid) == CommitStep(txs[s.cursor], mid, result)
  {
    PresentReadsValidate(txs[s.cursor], s.store, db);
  }

  /** A thread that reads and is joined before anything else commits is committed. */
  lemma {:induction false} ReadAndJoin(txs: Txs, db: Db, s: Run) returns (s': Run)
    requires Live(txs, db, s) && s.cursor < |txs| && !s.executed[s.cursor] && s.cursor !in s.snaps
    requires AdmitsAt(s.log, txs[s.cursor], db)
    ensures Live(txs, db, s')
    ensures s'.log == s.log + [txs[s.cursor]] && s'.executed == s.executed[s.cursor := true]
    ensures s'.cursor == s.cursor + 1 && s'.round == s.round && s'.start == s.start
    ensures s'.snaps.Keys == s.snaps.Keys + {s.cursor} && forall i :: i in s.snaps ==> s'.snaps[i] == s.snaps[i]
  {
    StoreAt(txs, db, s);
    Accepted(s.log, txs[s.cursor], db);
    FreshJoin(txs, db, s);
    var mid := Do(txs, db, s, TakeSnapshot(s.cursor));
    s' := Do(txs, db, mid, Settle);
  }

  /** Thread `i` read before anything was committed in this round. */
  ghost predicate ReadAtStart(s: Run, i: nat) {
    s.start <= |s.log| && i in s.snaps && s.snaps[i].at == s.start
  }

  lemma {:induction false} ReadOnly(txs: Txs, db: Db, s: Run, i: nat) returns (s': Run)
    requires Live(txs, db, s) && s.cursor <= i < |txs| && !s.executed[i] && i !in s.snaps && s.start == |s.log|
    ensures Live(txs, db, s') && ReadAtStart(s', i)
    ensures s' == s.(snaps := s.snaps[i := Snapshot(|s.log|, RunThread(txs[i], s.store, db))])
  {
    s' := Do(txs, db, s, TakeSnapshot(i));
  }

  /** The commit at `p` hides from `t` everything that the first `q` commits wrote at `l`. */
  ghost predicate Hides(log: Log, q: nat, t: TxAccessList, p: nat, l: Location)
    requires q <= |log| && p < |log|
  {
    && log[p].index < t.index && Writes(log[p], l) && Reads(t, l)
    && forall d :: 0 <= d < q && log[d].index < t.index && Writes(log[d], l) ==> log[d].index < log[p].index
  }

  lemma {:induction false} NewerVersion(log: Log, q: nat, tx: TxAccessList, db: Db, p: nat, a: Address)
    requires q <= |log| && p < |log| && Hides(log, q, tx, p, AccountAt(a))
    ensures Visible(log[..q], tx.index, a, db).writer < Visible(log, tx.index, a, db).writer < tx.index
  {
    VisibleIsGreatest(log[..q], tx.index, a, db);
    VisibleIsGreatest(log, tx.index, a, db);
  }

  lemma {:induction false} NewerSlotVersion(log: Log, q: nat, tx: TxAccessList, db: Db, p: nat, k: Slot)
    requires q <= |log| && p < |log| && Hides(log, q, tx, p, SlotAt(k))
    ensures VisibleSlot(log[..q], tx.index, k, db).writer < VisibleSlot(log, tx.index, k, db).writer < tx.index
  {
    VisibleSlotIsGreatest(log[..q], tx.index, k, db);
    VisibleSlotIsGreatest(log, tx.index, k, db);
  }

  /** A thread whose read of an account has a newer version by now fails validation. */
  lemma {:induction false} StaleAccount(log: Log, q: nat, tx: TxAccessList, db: Db, p: nat, a: Address)
    requires DistinctIndices(log) && q <= |log| && RunThread(tx, StoreOf(log[..q], db), db).Done?
    requires p < |log| && Hides(log, q, tx, p, AccountAt(a))
    ensures !Validates(RunThread(tx, StoreOf(log[..q], db), db), tx, StoreOf(log, db), db)
  {
    PrefixDistinct(log, q);
    StoreReads(log[..q], db, tx, a);
    StoreReads(log, db, tx, a);
    NewerVersion(log, q, tx, db, p, a);
    ChangedVersion(tx, StoreOf(log[..q], db), StoreOf(log, db), db, a);
  }

  lemma ChangedVersion(tx: TxAccessList, past: Store, now: Store, db: Db, a: Address)
    requires RunThread(tx, past, db).Done? && a in AccountsRead(tx)
    requires ReadAccount(past, tx.index, a, db).version != ReadAccount(now, tx.index, a, db).version
    ensures !Validates(RunThread(tx, past, db), tx, now, db)
  {
    assert a in RunThread(tx, past, db).readAccounts;
  }

  lemma {:induction false} StaleSlot(log: Log, q: nat, tx: TxAccessList, db: Db, p: nat, k: Slot)
    requires DistinctIndices(log) && q <= |log| && RunThread(tx, StoreOf(log[..q], db), db).Done?
    requires p < |log| && Hides(log, q, tx, p, SlotAt(k))
    ensures !Validates(RunThread(tx, StoreOf(log[..q], db), db), tx, StoreOf(log, db), db)
  {
    PrefixDistinct(log, q);
    StoreReadsSlot(log[..q], db, tx, k);
    StoreReadsSlot(log, db, tx, k);
    NewerSlotVersion(log, q, tx, db, p, k);
    ChangedSlotVersion(tx, StoreOf(log[..q], db), StoreOf(log, db), db, k);
  }

  lemma ChangedSlotVersion(tx: TxAccessList, past: Store, now: Store, db: Db, k: Slot)
    requires RunThread(tx, past, db).Done? && k in SlotsRead(tx)
    requires ReadSlot(past, tx.index, k, db).version != ReadSlot(now, tx.index, k, db).version
    ensures !Validates(RunThread(tx, past, db), tx, now, db)
  {
    assert k in RunThread(tx, past, db).readSlots;
  }

  /** A thread that read after `q` commits fails validation once what it read is hidden. */
  lemma {:induction false} StaleRead(log: Log, q: nat, tx: TxAccessList, db: Db, p: nat, l: Location)
    requires DistinctIndices(log) && q <= |log| && RunThread(tx, StoreOf(log[..q], db), db).Done?
    requires p < |log| && Hides(log, q, tx, p, l)
    ensures !Validates(RunThread(tx, StoreOf(log[..q], db), db), tx, StoreOf(log, db), db)
  {
    match l
    case AccountAt(a) => StaleAccount(log, q, tx, db, p, a);
    case SlotAt(k) => StaleSlot(log, q, tx, db, p, k);
  }

  lemma {:induction false} SnapshotAt(txs: Txs, db: Db, s: Run, i: nat)
    requires Live(txs, db, s) && i < |txs| && ReadAtStart(s, i)
    ensures s.snaps[i].result == RunThread(txs[i], StoreOf(s.log[..s.start], db), db)
  {
    var steps :| AfterSteps(txs, db, steps) == Some(s);
    ReachableInv(txs, db, steps);
    assert TakenFrom(txs[i], db, s.log, s.snaps[i]);
  }

  lemma {:induction false} StaleThread(txs: Txs, db: Db, s: Run, p: nat, l: Location)
    requires Live(txs, db, s) && s.cursor < |txs| && ReadAtStart(s, s.cursor)
    requires AdmitsAt(s.log[..s.start], txs[s.cursor], db)
    requires p < |s.log| && Hides(s.log, s.start, txs[s.cursor], p, l)
    ensures s.snaps[s.cursor].result.Done?
    ensures !Validates(s.snaps[s.cursor].result, txs[s.cursor], s.store, db)
  {
    StoreAt(txs, db, s);
    SnapshotAt(txs, db, s, s.cursor);
    PrefixDistinct(s.log, s.start);
    Accepted(s.log[..s.start], txs[s.cursor], db);
    StaleRead(s.log, s.start, txs[s.cursor], db, p, l);
  }

  /** A thread that read at the start of the round waits when what it read has been hidden since. */
  lemma {:induction false} Defer(txs: Txs, db: Db, s: Run, p: nat, l: Location) returns (s': Run)
    requires Live(txs, db, s) && s.cursor < |txs| && !s.executed[s.cursor] && ReadAtStart(s, s.cursor)
    requires AdmitsAt(s.log[..s.start], txs[s.cursor], db)
    requires p < |s.log| && Hides(s.log, s.start, txs[s.cursor], p, l)
    ensures Live(txs, db, s') && s' == s.(store := s'.store, cursor := s.cursor + 1)
  {
    StaleThread(txs, db, s, p, l);
    s' := Do(txs, db, s, Settle);
  }

  lemma {:induction false} Skip(txs: Txs, db: Db, s: Run) returns (s': Run)
    requires Live(txs, db, s) && s.cursor < |txs| && s.executed[s.cursor]
    ensures Live(txs, db, s') && s' == s.(cursor := s.cursor + 1)
  {
    s' := Do(txs, db, s, Settle);
  }

  lemma NextRound(txs: Txs, db: Db, s: Run, i: nat) returns (s': Run)
    requires Live(txs, db, s) && s.cursor == |txs| && i < |txs| && !s.executed[i] && s.round < MAX_RETRIES - 1
    ensures Live(txs, db, s')
    ensures s' == s.(round := s.round + 1, cursor := 0, snaps := map[], start := |s.log|)
  {
    s' := Do(txs, db, s, EndRound);
  }

  lemma Finish(txs: Txs, db: Db, s: Run) returns (s': Run)
    requires Live(txs, db, s) && s.cursor == |txs| && forall i :: 0 <= i < |txs| ==> s.executed[i]
    ensures Reachable(txs, db, s') && s'.status == Finished(None) && s'.log == s.log
  {
    s' := Do(txs, db, s, EndRound);
  }
}
