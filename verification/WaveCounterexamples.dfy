/** Blocks showing that the conditions of the wave theorems are needed. */
module WaveCounterexamples {
  import opened Lists
  import opened Machine
  import opened State
  import opened Transfers
  import opened Waves
  import opened WaveEngine
  import opened WaveRefinement

  // ---------- a deferred transfer is overtaken ----------

  /** Nothing is paid; index 2 does not conflict with index 0 and joins its wave, ahead of index 1. */
  function Touch(index: usize, a: Address, b: Address, writes: set<Address>, slots: Slots): TxAccessList {
    TxAccessList(index, a, b, 0, 0, {}, writes, map[], slots)
  }

  const HEAD := Touch(0, 1, 2, {1, 2}, map[])
  const WAITING := Touch(1, 3, 2, {2, 3}, map[9 := {7}])
  const JUMPER := Touch(2, 4, 5, {4, 5}, map[9 := {7}])
  const LISTED := [HEAD, WAITING, JUMPER]
  const EMPTY := Db(map[], map[])

  lemma TakeOne(t: TxAccessList, wave: seq<TxAccessList>)
    requires !ConflictsWithWave(t, wave)
    ensures Taken([t], wave) == [t] && Deferred([t], wave) == []
  {
    assert [t][1..] == [];
    assert Taken([], wave + [t]) == [] && Deferred([], wave + [t]) == [];
  }

  /** A transfer that conflicts with the first of three waits, and the third overtakes it. */
  lemma OvertakingWaves(head: TxAccessList, waiting: TxAccessList, jumper: TxAccessList)
    requires Conflicts(waiting, head) && !Conflicts(jumper, head)
    ensures WavesOf([head, waiting, jumper]) == [[head, jumper], [waiting]]
    ensures Flatten(WavesOf([head, waiting, jumper])) == [head, jumper, waiting]
  {
    var listed := [head, waiting, jumper];
    assert listed[1..] == [waiting, jumper] && [waiting, jumper][1..] == [jumper];
    assert [] + [head] == [head] && [head][0] == head;
    assert ConflictsWithWave(waiting, [head]) && !ConflictsWithWave(jumper, [head]) && !ConflictsWithWave(head, []);
    TakeOne(jumper, [head]);
    assert Taken([waiting, jumper], [head]) == [jumper] && Deferred([waiting, jumper], [head]) == [waiting];
    assert Taken(listed, []) == [head, jumper] && Deferred(listed, []) == [waiting];
    TakeOne(waiting, []);
    assert WavesOf([waiting]) == [[waiting]];
    assert [[head, jumper], [waiting]][1..] == [[waiting]] && [[waiting]][1..] == [];
    assert Flatten([[waiting]]) == [waiting];
  }

  lemma ListedWaves()
    ensures Flatten(WavesOf(LISTED)) == [HEAD, JUMPER, WAITING]
  {
    assert Conflicts(WAITING, HEAD) by {
      assert 2 in WAITING.writeAddresses * (HEAD.readAddresses + HEAD.writeAddresses);
    }
    OvertakingWaves(HEAD, WAITING, JUMPER);
  }

  lemma RunSlot(s: TxAccessList, t: TxAccessList, u: TxAccessList)
    requires Rejection(s, DEFAULT_ACCOUNT).None? && Rejection(t, DEFAULT_ACCOUNT).None?
            && Rejection(u, DEFAULT_ACCOUNT).None?
    requires !Touches(s, t.sender) && !Touches(s, u.sender) && !Touches(t, u.sender) && WritesSlot(u, 9, 7)
    ensures Serial([s, t, u], EMPTY).Ok? && SlotOf(Serial([s, t, u], EMPTY).value, 9, 7) == SlotValue(u, 7)
  {
    assert [s, t, u][1..] == [t, u] && [t, u][1..] == [u] && [u][1..] == [];
    var d1 := Apply(s, EMPTY);
    ApplyLookups(s, EMPTY, t.sender, 0);
    ApplyLookups(s, EMPTY, u.sender, 0);
    var d2 := Apply(t, d1);
    ApplyLookups(t, d1, u.sender, 0);
    var d3 := Apply(u, d2);
    ApplyLookups(u, d2, 9, 7);
    assert Serial([u], d2) == Ok(d3) && Serial([t, u], d1) == Ok(d3);
  }

  /** With every footprint declared, the wave run and serial execution in index order can end differently. */
  lemma {:induction false} WaveOrderIsNotIndexOrder()
    ensures AllDeclared(LISTED) && Ascending(LISTED) && RunWaves(WavesOf(LISTED), EMPTY).error == None
    ensures Serial(LISTED, EMPTY).Ok?
    ensures SlotOf(RunWaves(WavesOf(LISTED), EMPTY).db, 9, 7) == 9 && SlotOf(Serial(LISTED, EMPTY).value, 9, 7) == 10
  {
    ListedDeclared();
    ListedWaveRun();
    RunSlot(HEAD, WAITING, JUMPER);
  }

  lemma ListedDeclared()
    ensures AllDeclared(LISTED) && Ascending(LISTED)
  {
  }

  lemma ListedWaveRun()
    ensures RunWaves(WavesOf(LISTED), EMPTY).error == None
    ensures SlotOf(RunWaves(WavesOf(LISTED), EMPTY).db, 9, 7) == SlotValue(WAITING, 7)
  {
    RunSlot(HEAD, JUMPER, WAITING);
    ListedWaves();
    ListedDeclared();
    WavesNoClash(LISTED);
    SerialOkIsOkRun(LISTED, [HEAD, JUMPER, WAITING], EMPTY);
  }

  // ---------- a deferred nonce ----------

  const OPENING := Touch(0, 1, 2, {1, 2}, map[])
  const FIRST_SEND := Touch(1, 3, 2, {2, 3}, map[])
  const SECOND_SEND := Touch(2, 3, 4, {3, 4}, map[]).(nonce := 1)
  const LATE := [OPENING, FIRST_SEND, SECOND_SEND]

  lemma LateWaves()
    ensures WavesOf(LATE) == [[OPENING, SECOND_SEND], [FIRST_SEND]]
  {
    assert Conflicts(FIRST_SEND, OPENING) by {
      assert 2 in FIRST_SEND.writeAddresses * (OPENING.readAddresses + OPENING.writeAddresses);
    }
    assert !Conflicts(SECOND_SEND, OPENING);
    OvertakingWaves(OPENING, FIRST_SEND, SECOND_SEND);
  }

  /** A transfer, then two of one fresh sender with the nonces 0 and 1, nothing being paid. */
  lemma TwoSends(s: TxAccessList, t: TxAccessList, u: TxAccessList)
    requires Rejection(s, DEFAULT_ACCOUNT).None? && !Touches(s, t.sender)
    requires t.sender == u.sender && Rejection(t, DEFAULT_ACCOUNT).None?
    requires Rejection(u, Written(t, t.sender, DEFAULT_ACCOUNT)).None?
    ensures Serial([s, t, u], EMPTY).Ok?
  {
    var d1 := Apply(s, EMPTY);
    ApplyLookups(s, EMPTY, t.sender, 0);
    ApplyLookups(t, d1, t.sender, 0);
    SerialPair(t, u, d1);
    assert [s, t, u][1..] == [t, u];
  }

  lemma LateSerial()
    ensures Serial(LATE, EMPTY).Ok?
  {
    TwoSends(OPENING, FIRST_SEND, SECOND_SEND);
  }

  /**
   With every footprint declared, the wave run can fail where index order succeeds: a sender's first
   transfer is deferred, and its second one runs before it.
   */
  lemma DeferredNonceFails()
    ensures AllDeclared(LATE) && Ascending(LATE) && Serial(LATE, EMPTY).Ok?
    ensures RunWaves(WavesOf(LATE), EMPTY).error == Some(NonceMismatch(3, 1, 0))
  {
    LateSerial();
    LateWaves();
    assert [OPENING, SECOND_SEND][1..] == [SECOND_SEND];
    assert JoinAll([SECOND_SEND], EMPTY) == Err(NonceMismatch(3, 1, 0));
    assert JoinAll([OPENING, SECOND_SEND], EMPTY) == Err(NonceMismatch(3, 1, 0));
  }

  // ---------- a deferred credit ----------

  const PAYS := Touch(1, 2, 3, {2, 3}, map[]).(value := 5)
  const SPENDS := Touch(2, 3, 4, {3, 4}, map[]).(value := 5)
  const UNPAID := [OPENING, PAYS, SPENDS]
  const RICH := DEFAULT_ACCOUNT.(balance := 10)
  const ONE_PURSE := Db(map[2 := RICH], map[])

  lemma UnpaidSerial()
    ensures Serial(UNPAID, ONE_PURSE).Ok?
  {
    var d1 := Apply(OPENING, ONE_PURSE);
    ApplyLookups(OPENING, ONE_PURSE, 2, 0);
    ApplyLookups(OPENING, ONE_PURSE, 3, 0);
    ApplyLookups(PAYS, d1, 3, 0);
    SerialPair(PAYS, SPENDS, d1);
    assert UNPAID[1..] == [PAYS, SPENDS];
  }

  lemma UnpaidWaves()
    ensures WavesOf(UNPAID) == [[OPENING, SPENDS], [PAYS]]
  {
    assert Conflicts(PAYS, OPENING) by {
      assert 2 in PAYS.writeAddresses * (OPENING.readAddresses + OPENING.writeAddresses);
    }
    assert !Conflicts(SPENDS, OPENING);
    OvertakingWaves(OPENING, PAYS, SPENDS);
  }

  /** And it can fail where index order succeeds because a credit is deferred behind the transfer that spends it. */
  lemma DeferredCreditFails()
    ensures AllDeclared(UNPAID) && Ascending(UNPAID) && Serial(UNPAID, ONE_PURSE).Ok?
    ensures RunWaves(WavesOf(UNPAID), ONE_PURSE).error == Some(InsufficientBalance(3))
  {
    UnpaidSerial();
    UnpaidWaves();
    assert [OPENING, SPENDS][1..] == [SPENDS];
    assert JoinAll([SPENDS], ONE_PURSE) == Err(InsufficientBalance(3));
    assert JoinAll([OPENING, SPENDS], ONE_PURSE) == Err(InsufficientBalance(3));
  }

  // ---------- an undeclared footprint ----------

  const SPEND_0 := TxAccessList(0, 1, 2, 0, 0, {}, {}, map[], map[])
  const SPEND_1 := TxAccessList(1, 1, 2, 0, 1, {}, {}, map[], map[])
  const UNDECLARED := [SPEND_0, SPEND_1]

  /** Two transfers without a conflict make one wave. */
  lemma OneWave(t: TxAccessList, u: TxAccessList)
    requires !Conflicts(u, t)
    ensures WavesOf([t, u]) == [[t, u]]
  {
    assert [t, u][1..] == [u] && [] + [t] == [t];
    assert !ConflictsWithWave(u, [t]);
    TakeOne(u, [t]);
    assert Taken([t, u], []) == [t, u] && Deferred([t, u], []) == [];
  }

  lemma SerialPair(t: TxAccessList, u: TxAccessList, db: Db)
    requires Admits(t, db) && Admits(u, Apply(t, db))
    ensures Serial([t, u], db).Ok?
  {
    assert [t, u][1..] == [u] && [u][1..] == [];
    assert Serial([u], Apply(t, db)) == Ok(Apply(u, Apply(t, db)));
  }

  lemma UndeclaredSerial()
    ensures Serial(UNDECLARED, EMPTY).Ok?
  {
    ApplyLookups(SPEND_0, EMPTY, 1, 0);
    SerialPair(SPEND_0, SPEND_1, EMPTY);
  }

  /** Two transfers of one sender that declare nothing share a wave and a snapshot: the second fails. */
  lemma UndeclaredFootprintFails()
    ensures RunWaves(WavesOf(UNDECLARED), EMPTY).error == Some(NonceMismatch(1, 1, 0))
    ensures Serial(UNDECLARED, EMPTY).Ok?
  {
    OneWave(SPEND_0, SPEND_1);
    UndeclaredSerial();
    assert UNDECLARED[1..] == [SPEND_1];
    assert JoinAll([SPEND_1], EMPTY) == Err(NonceMismatch(1, 1, 0));
    assert JoinAll(UNDECLARED, EMPTY) == Err(NonceMismatch(1, 1, 0));
  }
}
