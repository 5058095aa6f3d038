/** Which blocks the optimistic engine can reject although one-at-a-time execution runs them. */
module PevmErrors {
  import opened Lists
  import opened Machine
  import opened State
  import opened Transfers
  import opened Ordering
  import opened Accounting
  import opened WaveRefinement
  import opened SenderOrder
  import opened CommitLog
  import opened Pevm
  import opened PevmSerial
  import opened PevmSchedules

  /** Every transfer would go through if it were the first one. */
  ghost predicate AllAdmitted(txs: Txs, db: Db) {
    forall t :: t in txs ==> Admits(t, db)
  }

  /** The run has ended in a nonce or balance error. */
  predicate Rejected(s: Run) {
    s.status.Finished? && s.status.error.Some? && !s.status.error.value.FailedToConverge?
  }

  ghost predicate MayReject(txs: Txs, db: Db) {
    exists steps :: AfterSteps(txs, db, steps).Some? && Rejected(AfterSteps(txs, db, steps).value)
  }

  /** The block runs in index order, and no balance of a sender can wrap. */
  ghost predicate RunsInOrder(txs: Txs, sorted: seq<TxAccessList>, db: Db) {
    && DistinctIndices(txs) && multiset(sorted) == multiset(txs) && Ascending(sorted)
    && Serial(sorted, db).Ok? && NoOverflow(txs, db)
  }

  // ---------- an admitted transfer is never rejected ----------

  /** A transfer that goes through first as well as in its turn has none of its sender's sends before it. */
  lemma NoSendsBefore(sorted: seq<TxAccessList>, db: Db, p: nat, t: TxAccessList)
    requires DistinctIndices(sorted) && Serial(sorted, db).Ok? && p < |sorted| && sorted[p] == t && Admits(t, db)
    ensures SendsOf(sorted[..p], t.sender) == {}
  {
    NonceCounts(sorted, db, p, t);
    NoStep(t.nonce, AccountOf(db, t.sender).nonce, |SendsOf(sorted[..p], t.sender)|);
  }

  lemma NoStep(nonce: u64, base: u64, count: nat)
    requires CountsTo(nonce, base, count) && nonce == base
    ensures count == 0
  {
    SameCount(nonce, base, count, 0);
  }

  /** If `t` goes through first as well as in its turn, its sender sends nothing to others before it. */
  lemma NothingSentBelow(txs: Txs, sorted: seq<TxAccessList>, db: Db, t: TxAccessList, u: TxAccessList)
    requires RunsInOrder(txs, sorted, db) && t in txs && Admits(t, db)
    requires u in txs && u.index < t.index && u.sender == t.sender
    ensures !Advances(u)
  {
    assert t in multiset(sorted) && u in multiset(sorted);
    var p :| 0 <= p < |sorted| && sorted[p] == t;
    var q :| 0 <= q < |sorted| && sorted[q] == u;
    NoSendsBefore(sorted, db, p, t);
    assert q < p && sorted[..p][q] == u;
    assert Advances(u) <==> u in SendsOf(sorted[..p], t.sender);
  }

  /** What the reader includes of its own account is credits only. */
  lemma {:induction false} NothingDebitedBelow(log: Log, reader: nat, a: Address)
    requires forall u :: u in log && u.index < reader && u.sender == a ==> !Advances(u)
    ensures Below(Sends, log, reader, a) == 0 && Below(Debits, log, reader, a) == 0
  {
    if log != [] { NothingDebitedBelow(log[..|log| - 1], reader, a); }
  }

  lemma {:induction false} SumSublist(log: Log, txs: Txs)
    requires DistinctIndices(log) && DistinctIndices(txs) && forall u :: u in log ==> u in txs
    ensures SumOfValues(log) <= SumOfValues(txs)
    decreases |log|
  {
    if log != [] {
      var rest, t := log[..|log| - 1], log[|log| - 1];
      assert t in log;
      var p :| 0 <= p < |txs| && txs[p] == t;
      var others := RemoveAt(txs, p);
      forall u | u in rest ensures u in others {
        var i :| 0 <= i < |rest| && rest[i] == u;
        assert log[i] == u && u in log;
        var q :| 0 <= q < |txs| && txs[q] == u;
        assert q != p;
        assert others[if q < p then q else q - 1] == u;
      }
      SumSublist(rest, others);
      SumRemove(txs, p);
    }
  }

  lemma {:induction false} SeesItsFunds(log: Log, t: TxAccessList, db: Db, sum: nat)
    requires DistinctIndices(log) && LogAdmitted(log, db) && SumOfValues(log) <= sum
    requires Below(Sends, log, t.index, t.sender) == 0 && Below(Debits, log, t.index, t.sender) == 0
    requires Admits(t, db) && AccountOf(db, t.sender).balance + sum < TWO_256
    ensures AdmitsAt(log, t, db)
  {
    var a := t.sender;
    VisiblePosts(log, t.index, a, db);
    OnlyCreditsIncluded(log, t.index, a, db);
    OnlyCredited(t, AccountOf(db, a), Visible(log, t.index, a, db).acc, Included(Credits, log, t.index, a, db));
  }

  lemma OnlyCreditsIncluded(log: Log, reader: nat, a: Address, db: Db)
    requires DistinctIndices(log) && Below(Sends, log, reader, a) == 0 && Below(Debits, log, reader, a) == 0
    ensures Included(Sends, log, reader, a, db) == 0 && Included(Debits, log, reader, a, db) == 0
    ensures Included(Credits, log, reader, a, db) <= SumOfValues(log)
  {
    IncludedOrMissed(Sends, log, reader, a, db);
    IncludedOrMissed(Debits, log, reader, a, db);
    IncludedOrMissed(Credits, log, reader, a, db);
    CreditsWithinValues(log, reader, a);
  }

  /** When nothing wraps, the ledger is exact. */
  lemma ExactBalance(x: AccountWitness, y: AccountWitness, sends: nat, debits: nat, credits: nat)
    requires Posted(x, y, sends, debits, credits) && debits <= x.balance && x.balance + credits < TWO_256
    ensures y.balance + debits == x.balance + credits
  {
  }

  lemma OnlyCredited(t: TxAccessList, before: AccountWitness, after: AccountWitness, credits: nat)
    requires Posted(before, after, 0, 0, credits) && Rejection(t, before).None? && before.balance + credits < TWO_256
    ensures Rejection(t, after).None?
  {
    ExactBalance(before, after, 0, 0, credits);
  }

  /** An admitted transfer goes through on every history of the block. */
  lemma AdmittedEverywhere(txs: Txs, sorted: seq<TxAccessList>, db: Db, log: Log, t: TxAccessList)
    requires RunsInOrder(txs, sorted, db) && t in txs && Admits(t, db)
    requires DistinctIndices(log) && LogAdmitted(log, db) && forall u :: u in log ==> u in txs
    ensures AdmitsAt(log, t, db)
  {
    forall u: TxAccessList | u in log && u.index < t.index && u.sender == t.sender ensures !Advances(u) {
      NothingSentBelow(txs, sorted, db, t, u);
    }
    NothingDebitedBelow(log, t.index, t.sender);
    SumSublist(log, txs);
    SeesItsFunds(log, t, db, SumOfValues(txs));
  }

  lemma {:induction false} PrefixLog(log: Log, db: Db, q: nat)
    requires DistinctIndices(log) && LogAdmitted(log, db) && q <= |log|
    ensures DistinctIndices(log[..q]) && LogAdmitted(log[..q], db)
  {
    forall p | 0 <= p < q
      ensures Rejection(log[..q][p], Visible(log[..q][..p], log[..q][p].index, log[..q][p].sender, db).acc).None?
    {
      assert log[..q][..p] == log[..p] && log[..q][p] == log[p];
    }
  }

  lemma {:induction false} SnapshotSucceeds(txs: Txs, sorted: seq<TxAccessList>, db: Db, s: Run, i: nat)
    requires RunsInOrder(txs, sorted, db) && AllAdmitted(txs, db) && Inv(txs, db, s) && i in s.snaps
    ensures s.snaps[i].result.Done?
  {
    var tx, at := txs[i], s.snaps[i].at;
    assert TakenFrom(tx, db, s.log, s.snaps[i]);
    PrefixLog(s.log, db, at);
    AdmittedEverywhere(txs, sorted, db, s.log[..at], tx);
    Accepted(s.log[..at], tx, db);
  }

  lemma StepNotRejected(txs: Txs, db: Db, s: Run, step: Step)
    requires Enabled(txs, s, step)
    requires step == Settle && !s.executed[s.cursor] ==> s.snaps[s.cursor].result.Done?
    ensures !Rejected(Next(txs, db, s, step))
  {
  }

  lemma {:induction false} NeverRejected(txs: Txs, sorted: seq<TxAccessList>, db: Db, steps: seq<Step>)
    requires RunsInOrder(txs, sorted, db) && AllAdmitted(txs, db) && AfterSteps(txs, db, steps).Some?
    ensures !Rejected(AfterSteps(txs, db, steps).value)
  {
    if steps != [] {
      var before, step := steps[..|steps| - 1], steps[|steps| - 1];
      var s := AfterSteps(txs, db, before).value;
      ReachableInv(txs, db, before);
      if step == Settle && !s.executed[s.cursor] { SnapshotSucceeds(txs, sorted, db, s, s.cursor); }
      StepNotRejected(txs, db, s, step);
    }
  }

  /** On a block of admitted transfers the next one always goes through. */
  lemma NextAdmits(txs: Txs, sorted: seq<TxAccessList>, db: Db, s: Run)
    requires RunsInOrder(txs, sorted, db) && AllAdmitted(txs, db) && Live(txs, db, s) && s.cursor < |txs|
    ensures AdmitsAt(s.log, txs[s.cursor], db)
  {
    var steps :| AfterSteps(txs, db, steps) == Some(s);
    ReachableInv(txs, db, steps);
    AdmittedEverywhere(txs, sorted, db, s.log, txs[s.cursor]);
  }

  // ---------- a transfer that is not admitted can be rejected ----------

  /** Once thread `i` has failed, joining the threads up to it ends the run in an error. */
  lemma {:induction false} JoinUpTo(txs: Txs, db: Db, s: Run, i: nat) returns (s': Run)
    requires Live(txs, db, s) && s.cursor <= i < |txs| && i in s.snaps
    requires s.snaps[i].result.Failed? && !s.snaps[i].result.error.FailedToConverge?
    requires forall j :: s.cursor <= j < |txs| ==> !s.executed[j] && (j in s.snaps ==> j == i)
    ensures Reachable(txs, db, s') && Rejected(s')
    decreases i - s.cursor
  {
    if s.cursor == i {
      s' := Do(txs, db, s, Settle);
    } else {
      var mid := Do(txs, db, s, TakeSnapshot(s.cursor));
      if mid.snaps[s.cursor].result.Failed? {
        s' := Do(txs, db, mid, Settle);
      } else {
        PresentReadsValidate(txs[s.cursor], s.store, db);
        var next := Do(txs, db, mid, Settle);
        s' := JoinUpTo(txs, db, next, i);
      }
    }
  }

  lemma NotAdmittedRejects(txs: Txs, db: Db, i: nat) returns (s: Run)
    requires DistinctIndices(txs) && i < |txs| && !Admits(txs[i], db)
    ensures Reachable(txs, db, s) && Rejected(s)
  {
    var s0 := Start(txs, db);
    var s1 := ReadOnly(txs, db, s0, i);
    s := JoinUpTo(txs, db, s1, i);
  }

  /**
   The engine can end in a nonce or balance error, on a block that runs in index order, exactly when
   some transfer would be rejected on the initial database.
   */
  lemma PevmRejectsIff(txs: Txs, sorted: seq<TxAccessList>, db: Db)
    requires RunsInOrder(txs, sorted, db)
    ensures MayReject(txs, db) <==> !AllAdmitted(txs, db)
  {
    if AllAdmitted(txs, db) {
      forall steps | AfterSteps(txs, db, steps).Some? ensures !Rejected(AfterSteps(txs, db, steps).value) {
        NeverRejected(txs, sorted, db, steps);
      }
    } else {
      var t :| t in txs && !Admits(t, db);
      var i :| 0 <= i < |txs| && txs[i] == t;
      var s := NotAdmittedRejects(txs, db, i);
    }
  }
}
