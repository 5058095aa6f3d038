/** When a join defers its transfer, spelled out on the declared reads and writes. */
module PevmJoins {
  import opened Machine
  import opened State
  import opened Transfers
  import opened Ordering
  import opened CommitLog
  import opened Pevm
  import opened PevmConvergence
  import opened PevmSchedules

  /** The commit at `p` wrote account `a` and is now the latest below the reader, above all of the first `at`. */
  ghost predicate Overwrote(log: Log, at: nat, reader: usize, p: nat, a: Address)
    requires at <= |log| && p < |log|
  {
    && (a == log[p].sender || a == log[p].recipient) && log[p].index < reader
    && forall d :: 0 <= d < at && (a == log[d].sender || a == log[d].recipient) && log[d].index < reader
                   ==> log[d].index < log[p].index
  }

  ghost predicate OverwroteSlot(log: Log, at: nat, reader: usize, p: nat, a: Address, slot: U256)
    requires at <= |log| && p < |log|
  {
    && a in log[p].writeSlots && slot in log[p].writeSlots[a] && log[p].index < reader
    && forall d :: 0 <= d < at && a in log[d].writeSlots && slot in log[d].writeSlots[a] && log[d].index < reader
                   ==> log[d].index < log[p].index
  }

  /** What the commit at `p` overwrote is the sender, the recipient, or an account or slot declared to be read. */
  ghost predicate OverwroteRead(log: Log, at: nat, t: TxAccessList, p: nat)
    requires at <= |log| && p < |log|
  {
    || (exists a: Address :: (a == t.sender || a == t.recipient || a in t.readAddresses)
                             && Overwrote(log, at, t.index, p, a))
    || (exists a: Address, slot: U256 :: a in t.readSlots && slot in t.readSlots[a]
                                         && OverwroteSlot(log, at, t.index, p, a, slot))
  }

  /** Since the thread read, after the first `at` commits, a lower index has overwritten something it reads. */
  ghost predicate Outdated(log: Log, at: nat, t: TxAccessList)
    requires at <= |log|
  {
    exists p :: at <= p < |log| && OverwroteRead(log, at, t, p)
  }

  lemma {:induction false} OverwroteHides(log: Log, at: nat, t: TxAccessList, p: nat) returns (l: Location)
    requires at <= |log| && p < |log| && OverwroteRead(log, at, t, p)
    ensures Hides(log, at, t, p, l)
  {
    if a: Address :| (a == t.sender || a == t.recipient || a in t.readAddresses) && Overwrote(log, at, t.index, p, a) {
      l := AccountAt(a);
    } else {
      var a: Address, slot: U256 :| a in t.readSlots && slot in t.readSlots[a]
                                    && OverwroteSlot(log, at, t.index, p, a, slot);
      l := SlotAt((a, slot));
      assert (a, slot) in SlotsRead(t);
    }
  }

  lemma {:induction false} LatestOverwrote(log: Log, at: nat, t: TxAccessList, p: nat, l: Location)
    requires at <= p < |log| && LatestWriter(log, t, p, l)
    ensures OverwroteRead(log, at, t, p)
  {
    match l
    case AccountAt(a) =>
      assert Overwrote(log, at, t.index, p, a);
    case SlotAt(k) =>
      assert OverwroteSlot(log, at, t.index, p, k.0, k.1);
  }

  /** Validation fails exactly on a read that is outdated. */
  lemma {:induction false} StaleIffOutdated(log: Log, at: nat, t: TxAccessList, db: Db)
    requires DistinctIndices(log) && at <= |log| && RunThread(t, StoreOf(log[..at], db), db).Done?
    ensures !Validates(RunThread(t, StoreOf(log[..at], db), db), t, StoreOf(log, db), db) <==> Outdated(log, at, t)
  {
    if Outdated(log, at, t) {
      var p :| at <= p < |log| && OverwroteRead(log, at, t, p);
      var l := OverwroteHides(log, at, t, p);
      StaleRead(log, at, t, db, p, l);
    }
    if !Validates(RunThread(t, StoreOf(log[..at], db), db), t, StoreOf(log, db), db) {
      var c, l := Blocker(log, at, t, db);
      LatestOverwrote(log, at, t, c, l);
    }
  }

  lemma {:induction false} CurrentSnapshot(txs: Txs, db: Db, s: Run)
    requires DistinctIndices(txs) && Inv(txs, db, s) && s.cursor < |txs| && s.cursor in s.snaps
    ensures var snap := s.snaps[s.cursor];
            && snap.at <= |s.log| && snap.result == RunThread(txs[s.cursor], StoreOf(s.log[..snap.at], db), db)
            && s.store == StoreOf(s.log, db) && DistinctIndices(s.log)
  {
    assert TakenFrom(txs[s.cursor], db, s.log, s.snaps[s.cursor]);
  }

  lemma JoinOutcome(txs: Txs, db: Db, s: Run)
    requires Enabled(txs, s, Settle) && !s.executed[s.cursor] && s.snaps[s.cursor].result.Done?
    ensures var committed := Validates(s.snaps[s.cursor].result, txs[s.cursor], s.store, db);
            && SettleStep(txs, db, s).executed[s.cursor] == committed
            && SettleStep(txs, db, s).log == if committed then s.log + [txs[s.cursor]] else s.log
  {
  }

  /**
   Joining a thread that ran without error leaves its transfer for the next round, and commits nothing,
   exactly when what it read is outdated; otherwise the transfer is committed.
   */
  lemma {:induction false} JoinDefersIff(txs: Txs, db: Db, steps: seq<Step>)
    requires DistinctIndices(txs) && AfterSteps(txs, db, steps).Some?
    requires var s := AfterSteps(txs, db, steps).value;
             Enabled(txs, s, Settle) && !s.executed[s.cursor] && s.snaps[s.cursor].result.Done?
    ensures var s := AfterSteps(txs, db, steps).value;
            && s.snaps[s.cursor].at <= |s.log|
            && var outdated := Outdated(s.log, s.snaps[s.cursor].at, txs[s.cursor]);
               && SettleStep(txs, db, s).executed[s.cursor] == !outdated
               && SettleStep(txs, db, s).log == if outdated then s.log else s.log + [txs[s.cursor]]
  {
    var s := AfterSteps(txs, db, steps).value;
    ReachableInv(txs, db, steps);
    CurrentSnapshot(txs, db, s);
    StaleIffOutdated(s.log, s.snaps[s.cursor].at, txs[s.cursor], db);
    JoinOutcome(txs, db, s);
  }
}
