/** The optimistic engine against serial execution, over every schedule. */
module PevmTheorem {
  import opened Machine
  import opened State
  import opened Transfers
  import opened Ordering
  import opened Accounting
  import opened FirstFit
  import opened WaveRefinement
  import opened Mvcc
  import opened CommitLog
  import opened Pevm
  import opened PevmConvergence
  import opened PevmSerial

  // ---------- the database of an Ok run ----------

  lemma LastIsLatest<T>(vs: Versions<T>)
    ensures LatestBelow(vs, TWO_64) == if vs == [] then None else Some(vs[|vs| - 1])
  {
  }

  lemma {:induction false} FinalAccountIsVisible(log: Log, db: Db, a: Address)
    requires DistinctIndices(log)
    ensures FinalAccount(StoreOf(log, db), db, a) == Visible(log, TWO_64, a, db).acc
  {
    var vs := VersionsAt(StoreOf(log, db).accounts, a);
    StoreHoldsLog(log, db, a);
    assert ReadsAs(vs, Visible(log, TWO_64, a, db), TWO_64);
    LastIsLatest(vs);
    VisibleIsGreatest(log, TWO_64, a, db);
  }

  lemma {:induction false} FinalSlotIsVisible(log: Log, db: Db, k: Slot)
    requires DistinctIndices(log)
    ensures FinalSlot(StoreOf(log, db), db, k) == VisibleSlot(log, TWO_64, k, db).val
  {
    var vs := VersionsAt(StoreOf(log, db).slots, k);
    StoreHoldsSlots(log, db, k);
    assert ReadsSlotAs(vs, VisibleSlot(log, TWO_64, k, db), TWO_64);
    LastIsLatest(vs);
    SlotBacking(log, TWO_64, k, db);
  }

  /** In ascending order the last writer of a slot is its writer of greatest index. */
  lemma {:induction false} LastWriterIsGreatest(sorted: seq<TxAccessList>, a: Address, slot: U256, t: TxAccessList)
    requires Ascending(sorted) && t in sorted && WritesSlot(t, a, slot)
    ensures LastWriter(sorted, a, slot).Some? && t.index <= LastWriter(sorted, a, slot).value.index
  {
    var n := |sorted| - 1;
    var i :| 0 <= i < |sorted| && sorted[i] == t;
    if i < n && !WritesSlot(sorted[n], a, slot) {
      assert sorted[..n][i] == t;
      LastWriterIsGreatest(sorted[..n], a, slot, t);
    }
  }

  /** Slots are never lost: every slot ends with the value of its writer of greatest index. */
  lemma SlotsAreSerial(log: Log, sorted: seq<TxAccessList>, db: Db, a: Address, slot: U256)
    requires DistinctIndices(log) && Ascending(sorted) && multiset(sorted) == multiset(log)
    requires Serial(sorted, db).Ok?
    ensures SlotOf(Serial(sorted, db).value, a, slot) == VisibleSlot(log, TWO_64, (a, slot), db).val
  {
    var k := (a, slot);
    SerialSlots(sorted, db, a, slot);
    LastWriterIn(sorted, a, slot);
    SlotBacking(log, TWO_64, k, db);
    VisibleSlotIsGreatest(log, TWO_64, k, db);
    var seen := VisibleSlot(log, TWO_64, k, db);
    if seen.writer != -1 {
      var p :| 0 <= p < |log| && log[p].index == seen.writer && WritesSlot(log[p], a, slot)
               && seen.val == SlotValue(log[p], slot);
      assert log[p] in multiset(sorted);
      LastWriterIsGreatest(sorted, a, slot, log[p]);
    }
    if LastWriter(sorted, a, slot).Some? {
      var t := LastWriter(sorted, a, slot).value;
      assert t in multiset(log);
      var j :| 0 <= j < |log| && log[j] == t;
      assert log[j].index <= seen.writer;
    }
  }

  // ---------- the theorems about logs ----------

  /** Serial execution in this order succeeds and ends in `final`. */
  ghost predicate SerialOutcome(sorted: seq<TxAccessList>, db: Db, final: Db) {
    Serial(sorted, db).Ok? && SameState(Serial(sorted, db).value, final)
  }

  lemma {:induction false} NoLostUpdateFinalizes(log: Log, sorted: seq<TxAccessList>, db: Db)
    requires DistinctIndices(log) && Ascending(sorted) && multiset(sorted) == multiset(log)
    requires LogAdmitted(log, db) && !LostUpdate(log)
    ensures Serial(sorted, db).Ok? && Finalized(StoreOf(log, db), db, Serial(sorted, db).value)
  {
    LogIsSerial(log, sorted, |sorted|, db);
    assert sorted[..|sorted|] == sorted;
    var d := Serial(sorted, db).value;
    forall a: Address ensures AccountOf(d, a) == FinalAccount(StoreOf(log, db), db, a) {
      FinalAccountIsVisible(log, db, a);
    }
    forall a: Address, slot: U256 ensures SlotOf(d, a, slot) == FinalSlot(StoreOf(log, db), db, (a, slot)) {
      FinalSlotIsVisible(log, db, (a, slot));
      SlotsAreSerial(log, sorted, db, a, slot);
    }
  }

  lemma {:induction false} NoLostUpdateMeansSerial(log: Log, sorted: seq<TxAccessList>, db: Db, final: Db)
    requires DistinctIndices(log) && Ascending(sorted) && multiset(sorted) == multiset(log)
    requires LogAdmitted(log, db) && !LostUpdate(log) && Finalized(StoreOf(log, db), db, final)
    ensures SerialOutcome(sorted, db, final)
  {
    NoLostUpdateFinalizes(log, sorted, db);
  }

  lemma {:induction false} SerialMeansNothingLost(log: Log, sorted: seq<TxAccessList>, db: Db, final: Db)
    requires DistinctIndices(log) && multiset(sorted) == multiset(log)
    requires LogAdmitted(log, db) && SumOfValues(log) < TWO_256 && Finalized(StoreOf(log, db), db, final)
    requires SerialOutcome(sorted, db, final)
    ensures !LostUpdate(log)
  {
    forall a: Address ensures AccountOf(Serial(sorted, db).value, a) == Visible(log, TWO_64, a, db).acc {
      FinalAccountIsVisible(log, db, a);
      assert AccountOf(Serial(sorted, db).value, a) == AccountOf(final, a);
    }
    BlockLength(log);
    SerialMeansNoLostUpdate(log, sorted, db);
  }

  // ---------- over every schedule ----------

  /** An Ok run has committed every transfer once. */
  lemma OkLogIsBlock(txs: Txs, s: Run)
    requires DistinctIndices(txs) && Shape(txs, s) && LogMatches(txs, s)
    requires forall i :: 0 <= i < |txs| ==> s.executed[i]
    ensures multiset(s.log) == multiset(txs)
  {
    forall t ensures multiset(s.log)[t] == multiset(txs)[t] {
      OccursOnce(s.log, t);
      OccursOnce(txs, t);
      assert t in multiset(s.log) <==> t in s.log;
      assert t in multiset(txs) <==> t in txs;
    }
  }

  lemma {:induction false} OkRunFacts(txs: Txs, db: Db, steps: seq<Step>)
    requires DistinctIndices(txs) && AfterSteps(txs, db, steps).Some?
    requires AfterSteps(txs, db, steps).value.status == Finished(None)
    ensures var s := AfterSteps(txs, db, steps).value;
            && multiset(s.log) == multiset(txs) && DistinctIndices(s.log) && LogAdmitted(s.log, db)
            && s.store == StoreOf(s.log, db)
  {
    ReachableInv(txs, db, steps);
    ReachableConverges(txs, db, steps);
    OkLogIsBlock(txs, AfterSteps(txs, db, steps).value);
  }

  /**
   Serializability. Whatever the schedule, an Ok run computes serial execution in ascending index
   order, which meets no error, if and only if no update was lost: no transfer that changes an
   account was committed under a higher index that had already read and written that account.
   */
  lemma PevmSerializable(txs: Txs, sorted: seq<TxAccessList>, db: Db, steps: seq<Step>, final: Db)
    requires DistinctIndices(txs) && multiset(sorted) == multiset(txs) && Ascending(sorted)
    requires SumOfValues(txs) < TWO_256
    requires AfterSteps(txs, db, steps).Some? && AfterSteps(txs, db, steps).value.status == Finished(None)
    requires Finalized(AfterSteps(txs, db, steps).value.store, db, final)
    ensures (Serial(sorted, db).Ok? && SameState(Serial(sorted, db).value, final))
            <==> !LostUpdate(AfterSteps(txs, db, steps).value.log)
  {
    OkRunFacts(txs, db, steps);
    var log := AfterSteps(txs, db, steps).value.log;
    SumPermutation(log, txs);
    if LostUpdate(log) {
      if SerialOutcome(sorted, db, final) { SerialMeansNothingLost(log, sorted, db, final); }
    } else {
      NoLostUpdateMeansSerial(log, sorted, db, final);
    }
  }

  // ---------- conservation ----------

  /** The total balance is a matter of lookups only. */
  lemma {:induction false} TotalByLookup(d: Db, e: Db)
    requires forall a: Address :: AccountOf(d, a).balance == AccountOf(e, a).balance
    ensures TotalBalance(d.accounts) == TotalBalance(e.accounts)
    decreases d.accounts
  {
    if d.accounts == map[] {
      AllZero(e);
    } else {
      var a :| a in d.accounts;
      TotalBalanceSplit(d.accounts, a);
      var d', e' := d.(accounts := d.accounts - {a}), e.(accounts := e.accounts - {a});
      forall b: Address ensures AccountOf(d', b).balance == AccountOf(e', b).balance {
        assert AccountOf(d, b).balance == AccountOf(e, b).balance;
      }
      TotalByLookup(d', e');
      if a in e.accounts { TotalBalanceSplit(e.accounts, a); } else { assert e'.accounts == e.accounts; }
      assert AccountOf(d, a).balance == AccountOf(e, a).balance;
    }
  }

  lemma {:induction false} AllZero(e: Db)
    requires forall a: Address :: AccountOf(e, a).balance == 0
    ensures TotalBalance(e.accounts) == 0
    decreases e.accounts
  {
    if e.accounts != map[] {
      var a :| a in e.accounts;
      TotalBalanceSplit(e.accounts, a);
      var e' := e.(accounts := e.accounts - {a});
      forall b: Address ensures AccountOf(e', b).balance == 0 {
        assert AccountOf(e, b).balance == 0;
      }
      AllZero(e');
      assert AccountOf(e, a).balance == 0;
    }
  }

  /** An Ok run that lost no update adds to the total its self-transfers only, and no credit wraps. */
  lemma {:induction false} PevmConserves(txs: Txs, sorted: seq<TxAccessList>, db: Db, steps: seq<Step>, final: Db)
    requires DistinctIndices(txs) && multiset(sorted) == multiset(txs) && Ascending(sorted)
    requires AfterSteps(txs, db, steps).Some? && AfterSteps(txs, db, steps).value.status == Finished(None)
    requires Finalized(AfterSteps(txs, db, steps).value.store, db, final)
    requires !LostUpdate(AfterSteps(txs, db, steps).value.log)
    requires TotalBalance(db.accounts) + Minted(txs) < TWO_256
    ensures TotalBalance(final.accounts) == TotalBalance(db.accounts) + Minted(txs)
    ensures forall a: Address ::
              AccountOf(final, a).balance + Total(Debits, txs, a) == AccountOf(db, a).balance + Total(Credits, txs, a)
  {
    OkRunFacts(txs, db, steps);
    NoLostUpdateMeansSerial(AfterSteps(txs, db, steps).value.log, sorted, db, final);
    MintedPermutation(sorted, txs);
    SerialConserves(sorted, db);
    TotalByLookup(Serial(sorted, db).value, final);
    forall a: Address
      ensures AccountOf(final, a).balance + Total(Debits, txs, a) == AccountOf(db, a).balance + Total(Credits, txs, a)
    {
      TotalPermutation(Debits, sorted, txs, a);
      TotalPermutation(Credits, sorted, txs, a);
      assert AccountOf(Serial(sorted, db).value, a) == AccountOf(final, a);
    }
  }

  // ---------- the MVCC invariant ----------

  /** The version is what its writer computed from the accounts it saw when it committed. */
  ghost predicate WroteAtCommit(log: Log, a: Address, db: Db, v: Version<AccountWitness>) {
    exists p :: 0 <= p < |log| && log[p].index == v.writer && Touches(log[p], a)
                && v.val == Written(log[p], a, Visible(log[..p], log[p].index, a, db).acc)
  }

  ghost predicate WroteSlot(log: Log, k: Slot, v: Version<U256>) {
    exists p :: 0 <= p < |log| && log[p].index == v.writer && WritesSlot(log[p], k.0, k.1)
                && v.val == SlotValue(log[p], k.1)
  }

  /** The versions of an account: strictly sorted, and exactly the committed writes to it. */
  ghost predicate AccountVersions(vs: Versions<AccountWitness>, log: Log, a: Address, db: Db) {
    && StrictlySorted(vs)
    && (forall w: usize :: HasWriter(vs, w) <==> CommittedTouch(log, a, w))
    && (forall i :: 0 <= i < |vs| ==> WroteAtCommit(log, a, db, vs[i]))
  }

  /** The same for a slot. */
  ghost predicate SlotVersions(vs: Versions<U256>, log: Log, k: Slot) {
    && StrictlySorted(vs)
    && (forall w: usize :: HasWriter(vs, w) <==> CommittedSlotWrite(log, k, w))
    && (forall i :: 0 <= i < |vs| ==> WroteSlot(log, k, vs[i]))
  }

  /** A read returns the greatest committed writer of the account below the reader, else the backing account. */
  ghost predicate ReadsGreatest(read: Read<AccountWitness>, log: Log, reader: usize, a: Address, db: Db) {
    if exists w: usize :: w < reader && CommittedTouch(log, a, w)
    then read.version < reader && CommittedTouch(log, a, read.version)
         && forall w: usize :: w < reader && CommittedTouch(log, a, w) ==> w <= read.version
    else read == Read(NO_VERSION, AccountOf(db, a))
  }

  ghost predicate ReadsGreatestSlot(read: Read<U256>, log: Log, reader: usize, k: Slot, db: Db) {
    if exists w: usize :: w < reader && CommittedSlotWrite(log, k, w)
    then read.version < reader && CommittedSlotWrite(log, k, read.version)
         && forall w: usize :: w < reader && CommittedSlotWrite(log, k, w) ==> w <= read.version
    else read == Read(NO_VERSION, SlotOf(db, k.0, k.1))
  }

  /**
   In every reachable state the version lists of every account and every slot are strictly sorted
   and hold exactly what the committed transfers wrote, and a read returns the greatest committed
   writer below the reader, else the backing value.
   */
  lemma {:induction false} MvccInvariant(txs: Txs, db: Db, steps: seq<Step>, a: Address, k: Slot, tx: TxAccessList)
    requires DistinctIndices(txs) && AfterSteps(txs, db, steps).Some?
    ensures var s := AfterSteps(txs, db, steps).value;
            && AccountVersions(VersionsAt(s.store.accounts, a), s.log, a, db)
            && SlotVersions(VersionsAt(s.store.slots, k), s.log, k)
            && ReadsGreatest(ReadAccount(s.store, tx.index, a, db), s.log, tx.index, a, db)
            && ReadsGreatestSlot(ReadSlot(s.store, tx.index, k, db), s.log, tx.index, k, db)
  {
    ReachableInv(txs, db, steps);
    var log := AfterSteps(txs, db, steps).value.log;
    LogAccountVersions(log, a, db);
    LogSlotVersions(log, k, db);
    StoreHoldsLog(log, db, a);
    StoreHoldsSlots(log, db, k);
    ReadIsGreatest(StoreOf(log, db), log, db, tx.index, a);
    SlotReadIsGreatest(StoreOf(log, db), log, db, tx.index, k);
  }

  lemma {:induction false} LogAccountVersions(log: Log, a: Address, db: Db)
    requires DistinctIndices(log)
    ensures AccountVersions(VersionsAt(StoreOf(log, db).accounts, a), log, a, db)
  {
    var vs := VersionsAt(StoreOf(log, db).accounts, a);
    StoreHoldsLog(log, db, a);
    forall i | 0 <= i < |vs| ensures WroteAtCommit(log, a, db, vs[i]) {
      VersionIsCommit(vs, log, a, db, i);
    }
  }

  lemma VersionIsCommit(vs: Versions<AccountWitness>, log: Log, a: Address, db: Db, i: nat)
    requires DistinctIndices(log) && HoldsAccount(vs, log, a, db) && i < |vs|
    ensures WroteAtCommit(log, a, db, vs[i])
  {
    var reader := vs[i].writer + 1;
    assert HasWriter(vs, vs[i].writer);
    var p :| 0 <= p < |log| && log[p].index == vs[i].writer && Touches(log[p], a);
    LatestBelowSorted(vs, reader);
    assert ReadsAs(vs, Visible(log, reader, a, db), reader);
    VersionValue(log, p, reader, a, db);
  }

  lemma {:induction false} LogSlotVersions(log: Log, k: Slot, db: Db)
    requires DistinctIndices(log)
    ensures SlotVersions(VersionsAt(StoreOf(log, db).slots, k), log, k)
  {
    var vs := VersionsAt(StoreOf(log, db).slots, k);
    StoreHoldsSlots(log, db, k);
    forall i | 0 <= i < |vs| ensures WroteSlot(log, k, vs[i]) {
      SlotVersionIsWrite(vs, log, k, db, i);
    }
  }

  lemma SlotVersionIsWrite(vs: Versions<U256>, log: Log, k: Slot, db: Db, i: nat)
    requires HoldsSlot(vs, log, k, db) && i < |vs|
    ensures WroteSlot(log, k, vs[i])
  {
    var reader := vs[i].writer + 1;
    LatestBelowSorted(vs, reader);
    assert ReadsSlotAs(vs, VisibleSlot(log, reader, k, db), reader);
    SlotBacking(log, reader, k, db);
  }

  /** Reading a list that holds the committed writes of an account. */
  lemma ReadIsGreatest(store: Store, log: Log, db: Db, reader: usize, a: Address)
    requires HoldsAccount(VersionsAt(store.accounts, a), log, a, db)
    ensures ReadsGreatest(ReadAccount(store, reader, a, db), log, reader, a, db)
  {
    assert ReadsAs(VersionsAt(store.accounts, a), Visible(log, reader, a, db), reader);
    VisibleIsGreatest(log, reader, a, db);
    var seen := Visible(log, reader, a, db);
    if seen.writer != -1 {
      assert CommittedTouch(log, a, seen.writer);
    }
  }

  lemma SlotReadIsGreatest(store: Store, log: Log, db: Db, reader: usize, k: Slot)
    requires HoldsSlot(VersionsAt(store.slots, k), log, k, db)
    ensures ReadsGreatestSlot(ReadSlot(store, reader, k, db), log, reader, k, db)
  {
    assert ReadsSlotAs(VersionsAt(store.slots, k), VisibleSlot(log, reader, k, db), reader);
    VisibleSlotIsGreatest(log, reader, k, db);
    SlotBacking(log, reader, k, db);
    var seen := VisibleSlot(log, reader, k, db);
    if seen.writer != -1 {
      assert CommittedSlotWrite(log, k, seen.writer);
    }
  }
}
