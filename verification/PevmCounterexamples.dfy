/** Schedules showing that the condition of the serializability theorem is needed. */
module PevmCounterexamples {
  import opened Machine
  import opened State
  import opened Transfers
  import opened Ordering
  import opened CommitLog
  import opened Pevm
  import opened PevmSerial
  import opened PevmConvergence
  import opened PevmSchedules
  import opened PevmTheorem

  function Pay(index: usize, sender: Address, recipient: Address, value: U256, nonce: u64): TxAccessList {
    TxAccessList(index, sender, recipient, value, nonce, {}, {sender, recipient}, map[], map[])
  }

  function Holding(balance: U256): AccountWitness {
    DEFAULT_ACCOUNT.(balance := balance)
  }

  // ---------- a lost update ----------

  const FIRST := Pay(0, 1, 2, 5, 0)
  const DEFERRED := Pay(1, 2, 3, 7, 0)
  const OVERTAKER := Pay(2, 4, 3, 3, 0)
  const BLOCK := [FIRST, DEFERRED, OVERTAKER]
  const FUNDS := Db(map[1 := Holding(10), 2 := Holding(10), 4 := Holding(10)], map[])

  lemma SeenAfterFirst()
    ensures Visible([FIRST], 1, 2, FUNDS) == Seen(0, Credited(FIRST, Holding(10)))
    ensures forall reader: nat :: Visible([FIRST], reader, 3, FUNDS) == Seen(-1, DEFAULT_ACCOUNT)
    ensures forall reader: nat :: Visible([FIRST], reader, 4, FUNDS) == Seen(-1, Holding(10))
  {
    assert [FIRST][..0] == [];
  }

  lemma SeenAfterOvertaker()
    ensures Visible([FIRST, OVERTAKER], 1, 2, FUNDS) == Seen(0, Credited(FIRST, Holding(10)))
    ensures Visible([FIRST, OVERTAKER], TWO_64, 3, FUNDS) == Seen(2, Credited(OVERTAKER, DEFAULT_ACCOUNT))
  {
    SeenAfterFirst();
    assert [FIRST, OVERTAKER][..1] == [FIRST];
  }

  /** Each transfer of the block would go through at the moment the schedule runs it. */
  lemma BlockAdmitted()
    ensures DistinctIndices(BLOCK) && AdmitsAt([], FIRST, FUNDS) && AdmitsAt([], DEFERRED, FUNDS)
    ensures AdmitsAt([FIRST], OVERTAKER, FUNDS) && AdmitsAt([FIRST, OVERTAKER], DEFERRED, FUNDS)
  {
    SeenAfterFirst();
    SeenAfterOvertaker();
  }

  /** Index 1 reads before index 0 commits. */
  lemma {:induction false} ReadTooEarly() returns (s: Run)
    ensures Live(BLOCK, FUNDS, s) && s.log == [FIRST] && s.executed == [true, false, false]
    ensures s.cursor == 1 && s.round == 0 && 2 !in s.snaps && ReadAtStart(s, 1) && s.start == 0
  {
    BlockAdmitted();
    var s0 := Start(BLOCK, FUNDS);
    var s1 := ReadOnly(BLOCK, FUNDS, s0, 1);
    s := ReadAndJoin(BLOCK, FUNDS, s1);
  }

  /** So it is deferred when it is joined, and index 2 commits in the same round. */
  lemma {:induction false} Overtake() returns (s: Run)
    ensures Live(BLOCK, FUNDS, s) && s.log == [FIRST, OVERTAKER] && s.executed == [true, false, true]
    ensures s.cursor == 3 && s.round == 0
  {
    BlockAdmitted();
    var s0 := ReadTooEarly();
    assert s0.log[..0] == [] && Reads(DEFERRED, AccountAt(2));
    var s1 := Defer(BLOCK, FUNDS, s0, 0, AccountAt(2));
    s := ReadAndJoin(BLOCK, FUNDS, s1);
  }

  /** In the next round index 1 commits under it. */
  lemma {:induction false} CommitLate() returns (s: Run)
    ensures Live(BLOCK, FUNDS, s) && s.log == [FIRST, OVERTAKER, DEFERRED]
    ensures s.cursor == 2 && s.executed == [true, true, true]
  {
    BlockAdmitted();
    var s0 := Overtake();
    var s1 := NextRound(BLOCK, FUNDS, s0, 1);
    var s2 := Skip(BLOCK, FUNDS, s1);
    s := ReadAndJoin(BLOCK, FUNDS, s2);
  }

  lemma {:induction false} OvertakingRun() returns (steps: seq<Step>, s: Run)
    ensures AfterSteps(BLOCK, FUNDS, steps) == Some(s) && s.status == Finished(None)
    ensures s.log == [FIRST, OVERTAKER, DEFERRED]
  {
    var s0 := CommitLate();
    var s1 := Skip(BLOCK, FUNDS, s0);
    s := Finish(BLOCK, FUNDS, s1);
    steps :| AfterSteps(BLOCK, FUNDS, steps) == Some(s);
  }

  lemma SerialOfBlock()
    ensures Serial(BLOCK, FUNDS).Ok? && AccountOf(Serial(BLOCK, FUNDS).value, 3).balance == 10
  {
    var d1 := Apply(FIRST, FUNDS);
    ApplyLookups(FIRST, FUNDS, 2, 0);
    ApplyLookups(FIRST, FUNDS, 3, 0);
    ApplyLookups(FIRST, FUNDS, 4, 0);
    var d2 := Apply(DEFERRED, d1);
    ApplyLookups(DEFERRED, d1, 3, 0);
    ApplyLookups(DEFERRED, d1, 4, 0);
    var d3 := Apply(OVERTAKER, d2);
    ApplyLookups(OVERTAKER, d2, 3, 0);
    SerialOne(OVERTAKER, d2);
    assert [DEFERRED, OVERTAKER][1..] == [OVERTAKER] && BLOCK[1..] == [DEFERRED, OVERTAKER];
    assert Serial([DEFERRED, OVERTAKER], d1) == Ok(d3);
  }

  lemma OvertakerHidesDeferred()
    ensures Visible([FIRST, OVERTAKER, DEFERRED], TWO_64, 3, FUNDS) == Seen(2, Credited(OVERTAKER, DEFAULT_ACCOUNT))
  {
    assert [FIRST, OVERTAKER, DEFERRED][..2] == [FIRST, OVERTAKER];
    SeenAfterOvertaker();
  }

  /**
   There is a block and a schedule whose Ok run is not serial execution: the credit of 7 that
   index 1 pays to account 3 is overwritten by the version of index 2.
   */
  lemma OkButNotSerial() returns (steps: seq<Step>, s: Run)
    ensures AfterSteps(BLOCK, FUNDS, steps) == Some(s) && s.status == Finished(None)
    ensures FinalAccount(s.store, FUNDS, 3).balance == 3
    ensures Serial(BLOCK, FUNDS).Ok? && AccountOf(Serial(BLOCK, FUNDS).value, 3).balance == 10
  {
    steps, s := OvertakingRun();
    OkRunFacts(BLOCK, FUNDS, steps);
    FinalAccountIsVisible(s.log, FUNDS, 3);
    OvertakerHidesDeferred();
    SerialOfBlock();
  }

  // ---------- a failure serial execution does not meet ----------

  const NONCE_0 := Pay(0, 1, 2, 5, 0)
  const NONCE_1 := Pay(1, 1, 3, 5, 1)
  const PAIR := [NONCE_0, NONCE_1]

  /** Two transfers of one sender: if the second reads first, the run fails on its nonce. */
  lemma {:induction false} ErrButSerialSucceeds() returns (steps: seq<Step>, s: Run)
    ensures AfterSteps(PAIR, FUNDS, steps) == Some(s) && s.status == Finished(Some(NonceMismatch(1, 1, 0)))
    ensures Serial(PAIR, FUNDS).Ok?
  {
    var s0 := Start(PAIR, FUNDS);
    var s1 := ReadOnly(PAIR, FUNDS, s0, 1);
    var s2 := ReadAndJoin(PAIR, FUNDS, s1);
    s := Do(PAIR, FUNDS, s2, Settle);
    steps :| AfterSteps(PAIR, FUNDS, steps) == Some(s);
    var d1 := Apply(NONCE_0, FUNDS);
    ApplyLookups(NONCE_0, FUNDS, 1, 0);
    SerialOne(NONCE_1, d1);
    assert PAIR[1..] == [NONCE_1];
  }
}
