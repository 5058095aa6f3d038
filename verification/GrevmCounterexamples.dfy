/** Two pairs of transfers that declare nothing and share a wave: one's trace explains the run, the other's does not. */
module GrevmCounterexamples {
  import opened Lists
  import opened Machine
  import opened State
  import opened Transfers
  import opened Accounting
  import opened Waves
  import opened WaveEngine
  import opened WaveRefinement
  import opened WaveCounterexamples
  import opened Grevm
  import opened GrevmTrace

  function Undeclared(index: usize, sender: Address, recipient: Address, value: U256): TxAccessList {
    TxAccessList(index, sender, recipient, value, 0, {}, {}, map[], map[])
  }

  const TEN := DEFAULT_ACCOUNT.(balance := 10)
  const TENS := Db(map[1 := TEN, 2 := TEN], map[])

  lemma PairRuns(t: TxAccessList, u: TxAccessList)
    requires Admits(t, TENS) && Admits(u, TENS) && !Conflicts(u, t)
    ensures WavesOf([t, u]) == [[t, u]] && JoinAll([t, u], TENS).Ok?
    ensures RunWaves(WavesOf([t, u]), TENS) == Outcome(MergeAll(JoinAll([t, u], TENS).value, TENS), 1, None)
  {
    OneWave(t, u);
    assert [t, u][1..] == [u] && [u][1..] == [] && [[t, u]][1..] == [];
    assert JoinAll([u], TENS).Ok?;
    assert JoinAll([t, u], TENS).Ok?;
  }

  lemma PairRecords(t: TxAccessList, u: TxAccessList, traces: seq<Trace>)
    requires Admits(t, TENS) && Admits(u, TENS) && !Conflicts(u, t) && RecordsWave([t, u], TENS, traces)
    ensures RecordsRun(WavesOf([t, u]), TENS, traces)
  {
    PairRuns(t, u);
    assert traces[..2] == traces && traces[2..] == [] && [[t, u]][1..] == [];
  }

  lemma NoSlots(t: TxAccessList)
    requires t.writeSlots == map[]
    ensures RecordsSlots(t, [])
  {
  }

  // ---------- a payment between ----------

  const PAID := Undeclared(0, 1, 2, 5)
  const PASSED_ON := Undeclared(1, 2, 3, 1)
  const PASSING := [PAID, PASSED_ON]
  const PASSING_TRACES := [
    [ReadAccount(1, 10, 0), WriteSender(1, 5, 1), WriteRecipient(2, 15)],
    [ReadAccount(2, 10, 0), WriteSender(2, 9, 1), WriteRecipient(3, 1)]]

  lemma PassingDoesNotReplay()
    ensures !Replayable(PASSING)
  {
    assert PASSING[..1] == [PAID];
    assert LastToucher([PAID], 2) == Some(PAID);
  }

  lemma PassingRecorded()
    ensures RecordsWave(PASSING, TENS, PASSING_TRACES)
  {
    NoSlots(PAID);
    NoSlots(PASSED_ON);
  }

  /**
   Account 2 is paid and pays in one wave: the run succeeds, nobody pays themselves, and the trace says
   that account 2 held 15 and that the next reader found 10.
   */
  lemma {:induction false} TraceContradictsItself()
    ensures RunWaves(WavesOf(PASSING), TENS).error == None && NoSelfTransfers(PASSING)
    ensures RecordsRun(WavesOf(PASSING), TENS, PASSING_TRACES)
    ensures !Faithful(Flatten(PASSING_TRACES), TENS, RunWaves(WavesOf(PASSING), TENS).db)
  {
    PassingRecorded();
    PairRuns(PAID, PASSED_ON);
    PairRecords(PAID, PASSED_ON, PASSING_TRACES);
    GrevmTraceSound(PASSING, TENS, PASSING_TRACES);
    assert [PASSING][0] == PASSING;
    PassingDoesNotReplay();
  }

  // ---------- a lost credit ----------

  const CREDIT := Undeclared(0, 1, 3, 5)
  const OVERWRITES := Undeclared(1, 2, 3, 7)
  const CREDITS := [CREDIT, OVERWRITES]

  lemma CreditsReplay()
    ensures Replayable(CREDITS)
  {
    assert CREDITS[..1] == [CREDIT] && CREDITS[..0] == [];
    assert LastToucher([CREDIT], 2) == None;
  }

  /** Two payments of 5 and 7 to one account clash, and the first is lost; the trace reports just that, and is sound. */
  lemma {:induction false} LostCreditIsTraced(traces: seq<Trace>)
    requires RecordsRun(WavesOf(CREDITS), TENS, traces)
    ensures RunWaves(WavesOf(CREDITS), TENS).error == None && !NoneClash(WavesOf(CREDITS))
    ensures AccountOf(RunWaves(WavesOf(CREDITS), TENS).db, 3).balance == 7
    ensures Faithful(Flatten(traces), TENS, RunWaves(WavesOf(CREDITS), TENS).db)
  {
    PairRuns(CREDIT, OVERWRITES);
    assert [CREDITS][0] == CREDITS && ChangesAccount(CREDITS[0], 3) && Touches(CREDITS[1], 3);
    MergedLast(CREDITS, TENS, TENS, 3);
    LastToucherAt(CREDITS, 3, 1);
    CreditsReplay();
    GrevmTraceSound(CREDITS, TENS, traces);
  }
}
