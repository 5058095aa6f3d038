/** Blocks the optimistic engine always runs serially: a condition on the block alone, not on the schedule. */
module PevmSafeBlocks {
  import opened Lists
  import opened Machine
  import opened State
  import opened Transfers
  import opened Ordering
  import opened WaveRefinement
  import opened Pevm
  import opened PevmConvergence
  import opened PevmSerial
  import opened PevmTheorem

  /** `t` changes an account that `u` touches as well. */
  ghost predicate ChangesUnder(t: TxAccessList, u: TxAccessList) {
    exists a: Address :: ChangesAccount(t, a) && Touches(t, a) && Touches(u, a)
  }

  /** Some transfer can make `t` wait a round. */
  ghost predicate MayWait(txs: Txs, t: TxAccessList) {
    exists h :: h in txs && CanDelay(txs, h, t)
  }

  /** Whoever changes an account of a transfer of higher index is listed before it, and never has to wait. */
  ghost predicate SafeBlock(txs: Txs) {
    forall t, u :: t in txs && u in txs && t.index < u.index && ChangesUnder(t, u) ==>
      Precedes(txs, t, u) && !MayWait(txs, t)
  }

  /** Commits come round by round, and inside a round in list order. */
  ghost predicate RoundsInListOrder(txs: Txs, s: Run)
    requires Shape(txs, s)
  {
    forall c, d :: 0 <= c < d < |s.log| ==>
      s.rounds[c] < s.rounds[d] || (s.rounds[c] == s.rounds[d] && Precedes(txs, s.log[c], s.log[d]))
  }

  lemma {:induction false} SettleInListOrder(txs: Txs, db: Db, s: Run)
    requires Shape(txs, s) && RoundsRecorded(txs, s) && RoundsInListOrder(txs, s) && Enabled(txs, s, Settle)
    ensures Shape(txs, SettleStep(txs, db, s)) && RoundsInListOrder(txs, SettleStep(txs, db, s))
  {
    if !s.executed[s.cursor] && s.snaps[s.cursor].result.Done? {
      forall c | 0 <= c < |s.log| && s.rounds[c] == s.round ensures Precedes(txs, s.log[c], txs[s.cursor]) {
        BeforeCursor(txs, s.cursor, s.log[c]);
      }
    }
  }

  lemma {:induction false} ReachableInListOrder(txs: Txs, db: Db, steps: seq<Step>)
    requires DistinctIndices(txs) && AfterSteps(txs, db, steps).Some?
    ensures Shape(txs, AfterSteps(txs, db, steps).value) && RoundsInListOrder(txs, AfterSteps(txs, db, steps).value)
  {
    if steps != [] {
      var before, step := steps[..|steps| - 1], steps[|steps| - 1];
      ReachableInListOrder(txs, db, before);
      ReachableConverges(txs, db, before);
      var s := AfterSteps(txs, db, before).value;
      if step == Settle { SettleInListOrder(txs, db, s); }
    }
  }

  /** A lost update needs a transfer out of list order, or one that waited. */
  lemma {:induction false} LostUpdateIsUnsafe(txs: Txs, s: Run)
    requires DistinctIndices(txs) && Shape(txs, s) && LogMatches(txs, s)
    requires WaitersBlocked(txs, s) && RoundsInListOrder(txs, s) && LostUpdate(s.log)
    ensures !SafeBlock(txs)
  {
    var p: nat, q: nat, a: Address :| LateTouch(s.log, p, q, a) && ChangesAccount(s.log[q], a);
    var t, u := s.log[q], s.log[p];
    assert t in txs && u in txs && ChangesUnder(t, u);
    if s.rounds[p] == s.rounds[q] {
      OnlyOneWay(txs, u, t);
    } else {
      var c := BlockerCanDelay(txs, s, t, s.rounds[p]);
      assert s.log[c] in txs && MayWait(txs, t);
    }
  }

  /** Every Ok run of a safe block, under every schedule, ends in the serial state of ascending index order. */
  lemma {:induction false} SafeBlocksAreSerial(txs: Txs, sorted: seq<TxAccessList>, db: Db, steps: seq<Step>)
    requires DistinctIndices(txs) && SafeBlock(txs) && multiset(sorted) == multiset(txs) && Ascending(sorted)
    requires AfterSteps(txs, db, steps).Some? && AfterSteps(txs, db, steps).value.status == Finished(None)
    ensures Serial(sorted, db).Ok?
    ensures Finalized(AfterSteps(txs, db, steps).value.store, db, Serial(sorted, db).value)
  {
    var s := AfterSteps(txs, db, steps).value;
    OkRunFacts(txs, db, steps);
    ReachableInv(txs, db, steps);
    ReachableConverges(txs, db, steps);
    ReachableInListOrder(txs, db, steps);
    if LostUpdate(s.log) { LostUpdateIsUnsafe(txs, s); }
    NoLostUpdateFinalizes(s.log, sorted, db);
  }
}
