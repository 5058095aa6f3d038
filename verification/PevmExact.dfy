/** The optimistic engine, exactly: on which blocks every schedule gives the serial result. */
module PevmExact {
  import opened Lists
  import opened Machine
  import opened State
  import opened Transfers
  import opened Ordering
  import opened SenderOrder
  import opened CommitLog
  import opened Pevm
  import opened PevmConvergence
  import opened PevmSerial
  import opened PevmTheorem
  import opened PevmSafeBlocks
  import opened PevmSchedules
  import opened PevmErrors
  import opened PevmStalls

  // ---------- rounds in which every thread reads and is joined at once ----------

  /** Pending threads from the cursor up to `n` are committed, in list order. */
  ghost predicate Committed(txs: Txs, s: Run, s': Run, n: nat)
    requires s.cursor <= n <= |txs| == |s.executed| == |s'.executed|
  {
    && s'.log == s.log + txs[s.cursor..n] && s'.cursor == n && s'.round == s.round && s'.start == s.start
    && (forall j :: 0 <= j < |txs| ==> s'.executed[j] == (s.executed[j] || s.cursor <= j < n))
    && (forall j :: j < s.cursor || j >= n ==> (j in s'.snaps <==> j in s.snaps))
    && (forall j :: j in s.snaps && j >= n ==> j in s'.snaps && s'.snaps[j] == s.snaps[j])
  }

  lemma {:induction false} CommitThrough(txs: Txs, sorted: seq<TxAccessList>, db: Db, s: Run, n: nat) returns (s': Run)
    requires RunsInOrder(txs, sorted, db) && AllAdmitted(txs, db) && Live(txs, db, s) && s.cursor <= n <= |txs|
    requires forall j :: s.cursor <= j < n ==> !s.executed[j] && j !in s.snaps
    ensures Live(txs, db, s') && Committed(txs, s, s', n)
    decreases n - s.cursor
  {
    if s.cursor == n {
      s' := s;
      assert txs[n..n] == [];
    } else {
      NextAdmits(txs, sorted, db, s);
      var next := ReadAndJoin(txs, db, s);
      s' := CommitThrough(txs, sorted, db, next, n);
      OneMoreCommitted(txs, s, next, s', n);
    }
  }

  lemma OneMoreCommitted(txs: Txs, s: Run, next: Run, s': Run, n: nat)
    requires s.cursor < n <= |txs| == |s.executed| == |s'.executed| && next.cursor == s.cursor + 1
    requires next.log == s.log + [txs[s.cursor]] && next.executed == s.executed[s.cursor := true]
    requires next.round == s.round && next.start == s.start
    requires next.snaps.Keys == s.snaps.Keys + {s.cursor} && forall i :: i in s.snaps ==> next.snaps[i] == s.snaps[i]
    requires Committed(txs, next, s', n)
    ensures Committed(txs, s, s', n)
  {
    assert txs[s.cursor..n] == [txs[s.cursor]] + txs[s.cursor + 1..n];
    Lists.ConcatAssociative(s.log, [txs[s.cursor]], txs[s.cursor + 1..n]);
  }

  lemma {:induction false} SkipTo(txs: Txs, db: Db, s: Run, n: nat) returns (s': Run)
    requires Live(txs, db, s) && s.cursor <= n <= |txs|
    requires forall j :: s.cursor <= j < n ==> s.executed[j]
    ensures Live(txs, db, s') && s' == s.(cursor := n)
    decreases n - s.cursor
  {
    if s.cursor == n {
      s' := s;
    } else {
      var next := Skip(txs, db, s);
      s' := SkipTo(txs, db, next, n);
    }
  }

  // ---------- an unsafe block has a schedule that loses an update ----------

  lemma LostBetween(log: Log, t: TxAccessList, u: TxAccessList)
    requires Precedes(log, u, t) && t.index < u.index && ChangesUnder(t, u)
    ensures LostUpdate(log)
  {
    var p, q :| 0 <= p < q < |log| && log[p] == u && log[q] == t;
    var a: Address :| ChangesAccount(t, a) && Touches(t, a) && Touches(u, a);
    assert LateTouch(log, p, q, a);
  }

  /** In list order, a transfer listed behind one of higher index commits under it. */
  lemma {:induction false} ListOrderRun(txs: Txs, sorted: seq<TxAccessList>, db: Db) returns (s: Run)
    requires RunsInOrder(txs, sorted, db) && AllAdmitted(txs, db)
    ensures Reachable(txs, db, s) && s.status == Finished(None) && s.log == txs
  {
    var s0 := Start(txs, db);
    var s1 := CommitThrough(txs, sorted, db, s0, |txs|);
    assert [] + txs[0..|txs|] == txs;
    s := Finish(txs, db, s1);
  }

  lemma AdmittedAtStart(t: TxAccessList, db: Db)
    requires Admits(t, db)
    ensures AdmitsAt([], t, db)
  {
  }

  /** `t` at `k` reads before anything is committed, and everyone before it commits. */
  lemma {:induction false} ReadEarly(txs: Txs, sorted: seq<TxAccessList>, db: Db, k: nat) returns (s: Run)
    requires RunsInOrder(txs, sorted, db) && AllAdmitted(txs, db) && k < |txs|
    ensures Live(txs, db, s) && ReadAtStart(s, k) && s.start == 0
    ensures s.cursor == k && s.round == 0 && s.log == txs[..k]
    ensures forall j :: 0 <= j < |txs| ==> s.executed[j] == (j < k)
    ensures forall j :: j > k ==> j !in s.snaps
  {
    var s0 := Start(txs, db);
    var s1 := ReadOnly(txs, db, s0, k);
    s := CommitThrough(txs, sorted, db, s1, k);
    assert [] + txs[0..k] == txs[..k];
  }

  /** So it waits when it is joined. */
  lemma {:induction false} Delay(txs: Txs, sorted: seq<TxAccessList>, db: Db, h: TxAccessList, k: nat) returns (s: Run)
    requires RunsInOrder(txs, sorted, db) && AllAdmitted(txs, db) && k < |txs| && CanDelay(txs, h, txs[k])
    ensures Live(txs, db, s) && s.cursor == k + 1 && s.round == 0 && s.log == txs[..k]
    ensures forall j :: 0 <= j < |txs| ==> s.executed[j] == (j < k)
    ensures forall j :: j > k ==> j !in s.snaps
  {
    var s0 := ReadEarly(txs, sorted, db, k);
    AdmittedAtStart(txs[k], db);
    var p := PositionBefore(txs, h, k);
    var l :| Writes(h, l) && Reads(txs[k], l);
    assert s0.log[..0] == [];
    s := Defer(txs, db, s0, p, l);
  }

  /** And in the first round everyone else commits. */
  lemma {:induction false} DelayedRound(txs: Txs, sorted: seq<TxAccessList>, db: Db, h: TxAccessList, k: nat)
    returns (s: Run)
    requires RunsInOrder(txs, sorted, db) && AllAdmitted(txs, db) && k < |txs| && CanDelay(txs, h, txs[k])
    ensures Live(txs, db, s) && s.cursor == |txs| && s.round == 0 && s.log == txs[..k] + txs[k + 1..]
    ensures forall j :: 0 <= j < |txs| ==> s.executed[j] == (j != k)
  {
    var s0 := Delay(txs, sorted, db, h, k);
    s := CommitThrough(txs, sorted, db, s0, |txs|);
    assert txs[k + 1..|txs|] == txs[k + 1..];
  }

  lemma PositionBefore(txs: Txs, h: TxAccessList, k: nat) returns (p: nat)
    requires DistinctIndices(txs) && k < |txs| && Precedes(txs, h, txs[k])
    ensures p < k && txs[..k][p] == h
  {
    var i, j :| 0 <= i < j < |txs| && txs[i] == h && txs[j] == txs[k];
    p := i;
  }

  lemma {:induction false} DelayedRun(txs: Txs, sorted: seq<TxAccessList>, db: Db, h: TxAccessList, k: nat)
    returns (s: Run)
    requires RunsInOrder(txs, sorted, db) && AllAdmitted(txs, db) && k < |txs| && CanDelay(txs, h, txs[k])
    ensures Reachable(txs, db, s) && s.status == Finished(None) && s.log == txs[..k] + txs[k + 1..] + [txs[k]]
  {
    var s0 := DelayedRound(txs, sorted, db, h, k);
    var s1 := NextRound(txs, db, s0, k);
    var s2 := SkipTo(txs, db, s1, k);
    NextAdmits(txs, sorted, db, s2);
    var s3 := ReadAndJoin(txs, db, s2);
    var s4 := SkipTo(txs, db, s3, |txs|);
    s := Finish(txs, db, s4);
  }

  lemma DelayedBehind(txs: Txs, k: nat, u: TxAccessList)
    requires k < |txs| && u in txs && u != txs[k]
    ensures Precedes(txs[..k] + txs[k + 1..] + [txs[k]], u, txs[k])
  {
    var log := txs[..k] + txs[k + 1..] + [txs[k]];
    var i :| 0 <= i < |txs| && txs[i] == u;
    assert log[if i < k then i else i - 1] == u && log[|log| - 1] == txs[k];
  }

  lemma {:induction false} DelayLosesUpdate(txs: Txs, sorted: seq<TxAccessList>, db: Db, t: TxAccessList,
                                            u: TxAccessList) returns (s: Run)
    requires RunsInOrder(txs, sorted, db) && AllAdmitted(txs, db) && t in txs && u in txs
    requires t.index < u.index && ChangesUnder(t, u) && MayWait(txs, t)
    ensures Reachable(txs, db, s) && s.status == Finished(None) && LostUpdate(s.log)
  {
    var k :| 0 <= k < |txs| && txs[k] == t;
    var h :| h in txs && CanDelay(txs, h, t);
    s := DelayedRun(txs, sorted, db, h, k);
    DelayedBehind(txs, k, u);
    LostBetween(s.log, t, u);
  }

  lemma InSomeOrder(txs: Txs, t: TxAccessList, u: TxAccessList)
    requires t in txs && u in txs && t != u
    ensures Precedes(txs, t, u) || Precedes(txs, u, t)
  {
    var i :| 0 <= i < |txs| && txs[i] == t;
    var j :| 0 <= j < |txs| && txs[j] == u;
    assert i < j ==> Precedes(txs, t, u);
  }

  lemma {:induction false} UnsafeLosesUpdate(txs: Txs, sorted: seq<TxAccessList>, db: Db) returns (s: Run)
    requires RunsInOrder(txs, sorted, db) && AllAdmitted(txs, db) && !SafeBlock(txs)
    ensures Reachable(txs, db, s) && s.status == Finished(None) && LostUpdate(s.log)
  {
    var t, u :| t in txs && u in txs && t.index < u.index && ChangesUnder(t, u)
                && !(Precedes(txs, t, u) && !MayWait(txs, t));
    if MayWait(txs, t) {
      s := DelayLosesUpdate(txs, sorted, db, t, u);
    } else {
      s := ListOrderRun(txs, sorted, db);
      InSomeOrder(txs, t, u);
      LostBetween(s.log, t, u);
    }
  }

  // ---------- the exact conditions ----------

  /** Whatever the schedule, an Ok run ends in the serial state. */
  ghost predicate OkRunsAreSerial(txs: Txs, sorted: seq<TxAccessList>, db: Db)
    requires Serial(sorted, db).Ok?
  {
    forall steps :: AfterSteps(txs, db, steps).Some? && AfterSteps(txs, db, steps).value.status == Finished(None) ==>
      Finalized(AfterSteps(txs, db, steps).value.store, db, Serial(sorted, db).value)
  }

  lemma {:induction false} LostUpdateIsNotSerial(txs: Txs, sorted: seq<TxAccessList>, db: Db, steps: seq<Step>)
    requires RunsInOrder(txs, sorted, db) && AfterSteps(txs, db, steps).Some?
    requires AfterSteps(txs, db, steps).value.status == Finished(None)
    requires LostUpdate(AfterSteps(txs, db, steps).value.log)
    ensures !Finalized(AfterSteps(txs, db, steps).value.store, db, Serial(sorted, db).value)
  {
    if Finalized(AfterSteps(txs, db, steps).value.store, db, Serial(sorted, db).value) {
      SumBelow(txs, db);
      PevmSerializable(txs, sorted, db, steps, Serial(sorted, db).value);
    }
  }

  /**
   For a block whose transfers are all admitted at the start: every Ok run is serial exactly when the block
   is safe.
   */
  lemma SafeBlockIff(txs: Txs, sorted: seq<TxAccessList>, db: Db)
    requires RunsInOrder(txs, sorted, db) && AllAdmitted(txs, db)
    ensures OkRunsAreSerial(txs, sorted, db) <==> SafeBlock(txs)
  {
    if SafeBlock(txs) {
      forall steps | AfterSteps(txs, db, steps).Some? && AfterSteps(txs, db, steps).value.status == Finished(None)
        ensures Finalized(AfterSteps(txs, db, steps).value.store, db, Serial(sorted, db).value)
      {
        SafeBlocksAreSerial(txs, sorted, db, steps);
      }
    } else {
      var s := UnsafeLosesUpdate(txs, sorted, db);
      var steps :| AfterSteps(txs, db, steps) == Some(s);
      LostUpdateIsNotSerial(txs, sorted, db, steps);
    }
  }

  /** Whatever the schedule, a run that ends is Ok and ends in the serial state. */
  ghost predicate AlwaysSerial(txs: Txs, sorted: seq<TxAccessList>, db: Db)
    requires Serial(sorted, db).Ok?
  {
    forall steps :: AfterSteps(txs, db, steps).Some? && AfterSteps(txs, db, steps).value.status.Finished? ==>
      AfterSteps(txs, db, steps).value.status == Finished(None)
      && Finalized(AfterSteps(txs, db, steps).value.store, db, Serial(sorted, db).value)
  }

  /** A run ends Ok, in an error of a transfer, or by giving up. */
  lemma AlwaysSerialMeans(txs: Txs, sorted: seq<TxAccessList>, db: Db)
    requires Serial(sorted, db).Ok?
    ensures AlwaysSerial(txs, sorted, db)
       <==> !MayReject(txs, db) && !MayStall(txs, db) && OkRunsAreSerial(txs, sorted, db)
  {
    if AlwaysSerial(txs, sorted, db) {
      forall steps | AfterSteps(txs, db, steps).Some?
        ensures !Rejected(AfterSteps(txs, db, steps).value)
        ensures AfterSteps(txs, db, steps).value.status != Finished(Some(FailedToConverge))
      {
      }
    }
  }

  /**
   The engine agrees with serial execution of a block that runs in index order, under every schedule and
   in every way it can end, exactly when every transfer is admitted on the initial database, the block
   is safe, and it is not stallable: conditions on the block and the database, before the call.
   */
  lemma PevmAgreesIff(txs: Txs, sorted: seq<TxAccessList>, db: Db)
    requires RunsInOrder(txs, sorted, db)
    ensures AlwaysSerial(txs, sorted, db) <==> AllAdmitted(txs, db) && SafeBlock(txs) && !Stallable(txs)
  {
    AlwaysSerialMeans(txs, sorted, db);
    PevmRejectsIff(txs, sorted, db);
    if AllAdmitted(txs, db) {
      SafeBlockIff(txs, sorted, db);
      StallsIff(txs, sorted, db);
    }
  }
}
