/** What a Grevm trace is worth: replaying its writes reproduces its reads and the final state. */
module GrevmTrace {
  import opened Lists
  import opened Machine
  import opened State
  import opened Transfers
  import opened Accounting
  import opened Waves
  import opened FirstFit
  import opened WaveEngine
  import opened WaveRefinement
  import opened WaveClashes
  import opened Grevm

  /** A verifier's replay of one record: writes update, reads change nothing. */
  function ReplayOne(r: TraceRecord, d: Db): Db {
    match r
    case ReadAccount(_, _, _) => d
    case WriteSender(a, balance, nonce) =>
      d.(accounts := d.accounts[a := AccountOf(d, a).(balance := balance, nonce := nonce)])
    case WriteRecipient(a, balance) =>
      d.(accounts := d.accounts[a := AccountOf(d, a).(balance := balance)])
    case WriteStorage(a, slot, val) =>
      d.(storage := d.storage[a := SlotsAt(d.storage, a)[slot := val]])
  }

  function Replay(trace: Trace, d: Db): Db {
    if trace == [] then d else Replay(trace[1..], ReplayOne(trace[0], d))
  }

  /** Every READ record says what the writes before it have left. */
  predicate ReadsAgree(trace: Trace, d: Db) {
    trace == [] ||
    ((trace[0].ReadAccount? ==> AccountOf(d, trace[0].addr).balance == trace[0].balance
                                && AccountOf(d, trace[0].addr).nonce == trace[0].nonce)
     && ReadsAgree(trace[1..], ReplayOne(trace[0], d)))
  }

  /** The trace alone, over the initial database, explains every read and the final database. */
  ghost predicate Faithful(trace: Trace, initial: Db, final: Db) {
    ReadsAgree(trace, initial) && SameState(Replay(trace, initial), final)
  }

  lemma {:induction false} ReplayConcat(s: Trace, t: Trace, d: Db)
    ensures Replay(s + t, d) == Replay(t, Replay(s, d))
    ensures ReadsAgree(s + t, d) <==> ReadsAgree(s, d) && ReadsAgree(t, Replay(s, d))
  {
    if s == [] {
      assert s + t == t;
    } else {
      assert (s + t)[1..] == s[1..] + t;
      ReplayConcat(s[1..], t, ReplayOne(s[0], d));
    }
  }

  lemma {:induction false} ReplayStorage(tx: TxAccessList, rs: Trace, d: Db, a: Address, slot: U256)
    requires forall i :: 0 <= i < |rs| ==> rs[i].WriteStorage? && rs[i].val == SlotValue(tx, rs[i].slot)
    ensures ReadsAgree(rs, d) && Replay(rs, d).accounts == d.accounts
    ensures SlotOf(Replay(rs, d), a, slot) ==
            if WriteStorage(a, slot, SlotValue(tx, slot)) in rs then SlotValue(tx, slot) else SlotOf(d, a, slot)
  {
    if rs != [] {
      assert rs == [rs[0]] + rs[1..];
      ReplayStorage(tx, rs[1..], ReplayOne(rs[0], d), a, slot);
    }
  }

  lemma ReplayThree(q: TraceRecord, r: TraceRecord, t: TraceRecord, d: Db)
    requires q.ReadAccount? && !r.ReadAccount? && !t.ReadAccount?
    ensures Replay([q, r, t], d) == ReplayOne(t, ReplayOne(r, d))
    ensures ReadsAgree([q, r, t], d) <==> AccountOf(d, q.addr).balance == q.balance
                                          && AccountOf(d, q.addr).nonce == q.nonce
  {
    assert [q, r, t][1..] == [r, t] && [r, t][1..] == [t] && [t][1..] == [];
    assert Replay([r, t], ReplayOne(q, d)) == Replay([t], ReplayOne(r, d)) == Replay([], ReplayOne(t, ReplayOne(r, d)));
    assert ReadsAgree([t], ReplayOne(r, d)) && ReadsAgree([r, t], d);
  }

  /** The replay of the trace of one transfer, from a database that may have drifted. */
  lemma {:induction false} ReplayTransfer(tx: TxAccessList, db: Db, d: Db, trace: Trace, a: Address, slot: U256)
    requires Records(tx, db, trace)
    ensures ReadsAgree(trace, d) <==> AccountOf(d, tx.sender).balance == AccountOf(db, tx.sender).balance
                                      && AccountOf(d, tx.sender).nonce == AccountOf(db, tx.sender).nonce
    ensures AccountOf(Replay(trace, d), a).nonce ==
            if a == tx.sender then WrappingAdd64(AccountOf(db, a).nonce, 1) else AccountOf(d, a).nonce
    ensures AccountOf(Replay(trace, d), a).balance ==
            if Touches(tx, a) then Written(tx, a, AccountOf(db, a)).balance else AccountOf(d, a).balance
    ensures AccountOf(Replay(trace, d), a) ==
            AccountOf(d, a).(balance := AccountOf(Replay(trace, d), a).balance,
                             nonce := AccountOf(Replay(trace, d), a).nonce)
    ensures SlotOf(Replay(trace, d), a, slot) ==
            if WritesSlot(tx, a, slot) then SlotValue(tx, slot) else SlotOf(d, a, slot)
  {
    var head, rs := trace[..3], trace[3..];
    assert trace == head + rs;
    ReplayConcat(head, rs, d);
    assert head == [trace[0], trace[1], trace[2]];
    ReplayThree(trace[0], trace[1], trace[2], d);
    var d2 := Replay(head, d);
    ReplayStorage(tx, rs, d2, a, slot);
    assert WriteStorage(a, slot, SlotValue(tx, slot)) in rs <==> WritesSlot(tx, a, slot);
  }

  /** From equal states, the trace of a transfer to another account replays it faithfully. */
  lemma ReplayFaithful(tx: TxAccessList, db: Db, d: Db, trace: Trace)
    requires Records(tx, db, trace) && SameState(d, db) && tx.sender != tx.recipient
    ensures ReadsAgree(trace, d) && SameState(Replay(trace, d), Apply(tx, db))
  {
    forall a: Address, slot: U256 ensures SlotOf(Replay(trace, d), a, slot) == SlotOf(Apply(tx, db), a, slot) {
      ReplayTransfer(tx, db, d, trace, a, slot);
      ApplyLookups(tx, db, a, slot);
      assert SlotOf(d, a, slot) == SlotOf(db, a, slot);
    }
    forall a: Address ensures AccountOf(Replay(trace, d), a) == AccountOf(Apply(tx, db), a) {
      ReplayTransfer(tx, db, d, trace, a, 0);
      ApplyLookups(tx, db, a, 0);
      assert AccountOf(d, a) == AccountOf(db, a);
    }
    ReplayTransfer(tx, db, d, trace, 0, 0);
  }

  /** One trace a transfer, each taken from the database the transfer really saw. */
  ghost predicate RecordsSerial(order: seq<TxAccessList>, db: Db, traces: seq<Trace>) {
    if order == [] then traces == []
    else traces != [] && Records(order[0], db, traces[0]) && RecordsSerial(order[1..], Apply(order[0], db), traces[1..])
  }

  /** Once a replayed nonce is off, the trace can no longer be faithful. */
  lemma {:induction false} NonceDrift(order: seq<TxAccessList>, db: Db, d: Db, traces: seq<Trace>, a: Address)
    requires Serial(order, db).Ok? && RecordsSerial(order, db, traces)
    requires AccountOf(d, a).nonce != AccountOf(db, a).nonce
    ensures !Faithful(Flatten(traces), d, Serial(order, db).value)
  {
    if order != [] {
      var tx, trace := order[0], traces[0];
      ReplayConcat(trace, Flatten(traces[1..]), d);
      ReplayTransfer(tx, db, d, trace, a, 0);
      ApplyLookups(tx, db, a, 0);
      if tx.sender != a {
        NonceDrift(order[1..], Apply(tx, db), Replay(trace, d), traces[1..], a);
      }
    }
  }

  /** Trace soundness, exactly: the trace of a serial run is faithful iff nobody pays themselves. */
  lemma {:induction false} SerialTraceFaithful(order: seq<TxAccessList>, db: Db, d: Db, traces: seq<Trace>)
    requires Serial(order, db).Ok? && RecordsSerial(order, db, traces) && SameState(d, db)
    ensures Faithful(Flatten(traces), d, Serial(order, db).value) <==> NoSelfTransfers(order)
  {
    if order != [] {
      var tx, trace, next := order[0], traces[0], Apply(order[0], db);
      ReplayConcat(trace, Flatten(traces[1..]), d);
      if tx.sender == tx.recipient {
        ReplayTransfer(tx, db, d, trace, tx.sender, 0);
        ApplyLookups(tx, db, tx.sender, 0);
        assert AccountOf(d, tx.sender) == AccountOf(db, tx.sender);
        NonceDrift(order[1..], next, Replay(trace, d), traces[1..], tx.sender);
      } else {
        ReplayFaithful(tx, db, d, trace);
        SerialTraceFaithful(order[1..], next, Replay(trace, d), traces[1..]);
        assert order == [tx] + order[1..];
      }
    }
  }

  // ---------- one wave ----------

  /** The last transfer of the wave that touches account `a`: the one whose copy of it stays. */
  function LastToucher(wave: seq<TxAccessList>, a: Address): Option<TxAccessList> {
    if wave == [] then None
    else if LastToucher(wave[1..], a).Some? then LastToucher(wave[1..], a)
    else if Touches(wave[0], a) then Some(wave[0])
    else None
  }

  predicate SendsFrom(wave: seq<TxAccessList>, a: Address) {
    wave != [] && (wave[0].sender == a || SendsFrom(wave[1..], a))
  }

  lemma {:induction false} SendsFromMeans(wave: seq<TxAccessList>, a: Address)
    ensures SendsFrom(wave, a) <==> exists j :: 0 <= j < |wave| && wave[j].sender == a
  {
    if wave != [] {
      SendsFromMeans(wave[1..], a);
      assert forall j :: 0 < j < |wave| ==> wave[j] == wave[1..][j - 1];
      assert forall j :: 0 <= j < |wave[1..]| ==> wave[1..][j] == wave[j + 1];
    }
  }

  /** The last toucher is somewhere in the wave, and nobody behind it touches the account. */
  ghost predicate LastAt(wave: seq<TxAccessList>, a: Address, i: nat) {
    i < |wave| && Touches(wave[i], a) && forall k :: i < k < |wave| ==> !Touches(wave[k], a)
  }

  lemma {:induction false} LastToucherMeans(wave: seq<TxAccessList>, a: Address)
    ensures match LastToucher(wave, a)
            case Some(u) => exists i: nat :: LastAt(wave, a, i) && wave[i] == u
            case None => forall i :: 0 <= i < |wave| ==> !Touches(wave[i], a)
  {
    if wave != [] {
      LastToucherMeans(wave[1..], a);
      assert forall j :: 0 < j < |wave| ==> wave[j] == wave[1..][j - 1];
      if LastToucher(wave[1..], a).Some? {
        var i: nat :| LastAt(wave[1..], a, i) && wave[1..][i] == LastToucher(wave[1..], a).value;
        assert LastAt(wave, a, i + 1);
      } else if Touches(wave[0], a) {
        assert LastAt(wave, a, 0);
      }
    }
  }

  lemma LastToucherAt(wave: seq<TxAccessList>, a: Address, i: nat)
    requires LastAt(wave, a, i)
    ensures LastToucher(wave, a) == Some(wave[i])
  {
    LastToucherMeans(wave, a);
    if LastToucher(wave, a).Some? {
      var j: nat :| LastAt(wave, a, j) && wave[j] == LastToucher(wave, a).value;
      assert i == j;
    }
  }

  /** What merging leaves in an account. */
  lemma {:induction false} MergedLast(wave: seq<TxAccessList>, snapshot: Db, db: Db, a: Address)
    requires JoinAll(wave, snapshot).Ok?
    ensures AccountOf(MergeAll(JoinAll(wave, snapshot).value, db), a) ==
            match LastToucher(wave, a)
            case Some(u) => Written(u, a, AccountOf(snapshot, a)) case None => AccountOf(db, a)
  {
    if wave != [] {
      var res, more := RunOnSnapshot(wave[0], snapshot).value, JoinAll(wave[1..], snapshot).value;
      assert ([res] + more)[1..] == more;
      MergedLast(wave[1..], snapshot, Merge(res, db), a);
      MergedAccount(wave[0], snapshot, db, a);
    }
  }

  /** What replaying the records of a wave leaves in an account, from a database that may have drifted. */
  lemma {:induction false} ReplayedLast(wave: seq<TxAccessList>, snapshot: Db, d: Db, traces: seq<Trace>, a: Address)
    requires RecordsWave(wave, snapshot, traces)
    ensures var acc := AccountOf(Replay(Flatten(traces), d), a);
            && acc.balance == (match LastToucher(wave, a)
                               case Some(u) => Written(u, a, AccountOf(snapshot, a)).balance
                               case None => AccountOf(d, a).balance)
            && acc.nonce == (if SendsFrom(wave, a) then WrappingAdd64(AccountOf(snapshot, a).nonce, 1)
                             else AccountOf(d, a).nonce)
            && acc == AccountOf(d, a).(balance := acc.balance, nonce := acc.nonce)
  {
    if wave != [] {
      ReplayConcat(traces[0], Flatten(traces[1..]), d);
      ReplayTransfer(wave[0], snapshot, d, traces[0], a, 0);
      RecordsTail(wave, snapshot, traces);
      ReplayedLast(wave[1..], snapshot, Replay(traces[0], d), traces[1..], a);
    }
  }

  lemma RecordsTail(wave: seq<TxAccessList>, snapshot: Db, traces: seq<Trace>)
    requires wave != [] && RecordsWave(wave, snapshot, traces)
    ensures RecordsWave(wave[1..], snapshot, traces[1..])
  {
    forall i | 0 <= i < |wave[1..]| ensures Records(wave[1..][i], snapshot, traces[1..][i]) {
      assert Records(wave[i + 1], snapshot, traces[i + 1]);
    }
  }

  /** Slots are replayed as they are merged. */
  lemma {:induction false} SlotsReplayed(wave: seq<TxAccessList>, snapshot: Db, db: Db, d: Db, traces: seq<Trace>,
                                         a: Address, slot: U256)
    requires RecordsWave(wave, snapshot, traces) && JoinAll(wave, snapshot).Ok?
    requires SlotOf(d, a, slot) == SlotOf(db, a, slot)
    ensures SlotOf(Replay(Flatten(traces), d), a, slot) == SlotOf(MergeAll(JoinAll(wave, snapshot).value, db), a, slot)
  {
    if wave != [] {
      var res, more := RunOnSnapshot(wave[0], snapshot).value, JoinAll(wave[1..], snapshot).value;
      assert ([res] + more)[1..] == more;
      ReplayConcat(traces[0], Flatten(traces[1..]), d);
      ReplayTransfer(wave[0], snapshot, d, traces[0], a, slot);
      MergedSlot(wave[0], snapshot, db, a, slot);
      RecordsTail(wave, snapshot, traces);
      SlotsReplayed(wave[1..], snapshot, Merge(res, db), Replay(traces[0], d), traces[1..], a, slot);
    }
  }

  lemma MergedSlot(tx: TxAccessList, snapshot: Db, db: Db, a: Address, slot: U256)
    requires Admits(tx, snapshot)
    ensures SlotOf(Merge(RunOnSnapshot(tx, snapshot).value, db), a, slot) ==
            if WritesSlot(tx, a, slot) then SlotValue(tx, slot) else SlotOf(db, a, slot)
  {
  }

  // ---------- when the reads of a wave agree ----------

  /**
   Before transfer `j`, its sender has sent nothing in this wave, and was last touched with the value 0, if
   at all.
   */
  predicate SenderUnmoved(wave: seq<TxAccessList>, j: nat)
    requires j < |wave|
  {
    && !SendsFrom(wave[..j], wave[j].sender)
    && (LastToucher(wave[..j], wave[j].sender).Some? ==> LastToucher(wave[..j], wave[j].sender).value.value == 0)
  }

  /** A stored copy has the balance it was made from exactly when nothing was paid. */
  lemma SameBalanceIffZero(u: TxAccessList, a: Address, before: AccountWitness)
    requires Touches(u, a) && (a == u.sender ==> Rejection(u, before).None?)
    ensures Written(u, a, before).balance == before.balance <==> u.value == 0
  {
  }

  lemma RecordsPrefix(wave: seq<TxAccessList>, snapshot: Db, traces: seq<Trace>, j: nat)
    requires RecordsWave(wave, snapshot, traces) && j <= |wave|
    ensures RecordsWave(wave[..j], snapshot, traces[..j])
  {
    forall i | 0 <= i < j ensures Records(wave[..j][i], snapshot, traces[..j][i]) {
      assert Records(wave[i], snapshot, traces[i]);
    }
  }

  lemma {:induction false} ReadAgrees(wave: seq<TxAccessList>, db: Db, d: Db, traces: seq<Trace>, j: nat)
    requires RecordsWave(wave, db, traces) && j < |wave|
    requires AccountOf(d, wave[j].sender) == AccountOf(db, wave[j].sender)
    ensures ReadsAgree(traces[j], Replay(Flatten(traces[..j]), d)) <==> SenderUnmoved(wave, j)
  {
    var a := wave[j].sender;
    RecordsPrefix(wave, db, traces, j);
    ReplayedLast(wave[..j], db, d, traces[..j], a);
    ReplayTransfer(wave[j], db, Replay(Flatten(traces[..j]), d), traces[j], a, 0);
    LastToucherMeans(wave[..j], a);
    if LastToucher(wave[..j], a).Some? {
      var i: nat :| LastAt(wave[..j], a, i) && wave[..j][i] == LastToucher(wave[..j], a).value;
      assert Records(wave[i], db, traces[i]);
      SameBalanceIffZero(wave[i], a, AccountOf(db, a));
    }
  }

  /** Reading the traces one after the other. */
  lemma {:induction false} ReadsOneByOne(traces: seq<Trace>, d: Db)
    ensures ReadsAgree(Flatten(traces), d)
       <==> forall j :: 0 <= j < |traces| ==> ReadsAgree(traces[j], Replay(Flatten(traces[..j]), d))
    decreases |traces|
  {
    if traces != [] {
      var n := |traces| - 1;
      ReadsOneByOne(traces[..n], d);
      assert traces == traces[..n] + [traces[n]];
      FlattenConcat(traces[..n], [traces[n]]);
      assert Flatten([traces[n]]) == traces[n] + Flatten([traces[n]][1..]) == traces[n];
      ReplayConcat(Flatten(traces[..n]), traces[n], d);
      assert forall j :: 0 <= j < n ==> traces[..n][j] == traces[j] && traces[..n][..j] == traces[..j];
    }
  }

  lemma {:induction false} WaveReadsAgree(wave: seq<TxAccessList>, db: Db, d: Db, traces: seq<Trace>)
    requires RecordsWave(wave, db, traces) && SameState(d, db)
    ensures ReadsAgree(Flatten(traces), d) <==> forall j :: 0 <= j < |wave| ==> SenderUnmoved(wave, j)
  {
    ReadsOneByOne(traces, d);
    forall j | 0 <= j < |wave|
      ensures ReadsAgree(traces[j], Replay(Flatten(traces[..j]), d)) <==> SenderUnmoved(wave, j)
    {
      ReadAgrees(wave, db, d, traces, j);
    }
  }

  // ---------- when the replay of a wave ends where the merge does ----------

  /** Whoever has sent is last touched by a transfer of its own to another account. */
  predicate NonceStays(wave: seq<TxAccessList>, a: Address) {
    SendsFrom(wave, a) ==> LastToucher(wave, a).Some? && LastToucher(wave, a).value.recipient != a
  }

  lemma {:induction false} WaveEnds(wave: seq<TxAccessList>, db: Db, d: Db, traces: seq<Trace>, a: Address)
    requires RecordsWave(wave, db, traces) && JoinAll(wave, db).Ok? && AccountOf(d, a) == AccountOf(db, a)
    ensures var replayed, merged := AccountOf(Replay(Flatten(traces), d), a),
            AccountOf(MergeAll(JoinAll(wave, db).value, db), a);
            && merged == replayed.(nonce := merged.nonce)
            && (replayed.nonce == merged.nonce <==> NonceStays(wave, a))
  {
    ReplayedLast(wave, db, d, traces, a);
    MergedLast(wave, db, db, a);
    LastToucherMeans(wave, a);
    SendsFromMeans(wave, a);
    if LastToucher(wave, a).Some? {
      var i: nat :| LastAt(wave, a, i) && wave[i] == LastToucher(wave, a).value;
      assert Records(wave[i], db, traces[i]);
      if wave[i].recipient != a { assert wave[i].sender == a; }
    }
  }

  /**
   A wave whose trace replays: no transfer goes from an account to itself, none comes after a transfer
   whose sender it touches, and the last to touch a sender before its transfer pays nothing.
   */
  predicate Replayable(wave: seq<TxAccessList>) {
    forall j :: 0 <= j < |wave| ==>
      && wave[j].sender != wave[j].recipient
      && (forall k :: j < k < |wave| ==> !Touches(wave[k], wave[j].sender))
      && (LastToucher(wave[..j], wave[j].sender).Some? ==> LastToucher(wave[..j], wave[j].sender).value.value == 0)
  }

  ghost predicate AllAgree(wave: seq<TxAccessList>) {
    (forall j :: 0 <= j < |wave| ==> SenderUnmoved(wave, j)) && (forall a: Address :: NonceStays(wave, a))
  }

  lemma {:induction false} ReplayableAgrees(wave: seq<TxAccessList>)
    requires Replayable(wave)
    ensures AllAgree(wave)
  {
    forall j | 0 <= j < |wave| ensures SenderUnmoved(wave, j) {
      SendsFromMeans(wave[..j], wave[j].sender);
    }
    forall a: Address ensures NonceStays(wave, a) {
      SendsFromMeans(wave, a);
      if j :| 0 <= j < |wave| && wave[j].sender == a { LastToucherAt(wave, a, j); }
    }
  }

  lemma {:induction false} AgreesReplayable(wave: seq<TxAccessList>)
    requires AllAgree(wave)
    ensures Replayable(wave)
  {
    forall j | 0 <= j < |wave|
      ensures wave[j].sender != wave[j].recipient && LastAt(wave, wave[j].sender, j) && SenderUnmoved(wave, j)
    {
      SenderTouchesLast(wave, j);
    }
  }

  lemma {:induction false} SenderTouchesLast(wave: seq<TxAccessList>, j: nat)
    requires j < |wave| && AllAgree(wave)
    ensures wave[j].sender != wave[j].recipient && LastAt(wave, wave[j].sender, j)
  {
    var a := wave[j].sender;
    SendsFromMeans(wave, a);
    assert NonceStays(wave, a);
    LastToucherMeans(wave, a);
    var i: nat :| LastAt(wave, a, i) && wave[i] == LastToucher(wave, a).value;
    SendsFromMeans(wave[..i], a);
    assert SenderUnmoved(wave, i);
    assert forall k :: 0 <= k < i ==> wave[..i][k] == wave[k];
  }

  /** From equal states, the trace of a wave explains it exactly when the wave is replayable. */
  lemma {:induction false} WaveTraceIff(wave: seq<TxAccessList>, db: Db, d: Db, traces: seq<Trace>)
    requires RecordsWave(wave, db, traces) && JoinAll(wave, db).Ok? && SameState(d, db)
    ensures Faithful(Flatten(traces), d, MergeAll(JoinAll(wave, db).value, db)) <==> Replayable(wave)
    ensures ReadsAgree(Flatten(traces), d) && !Replayable(wave) ==>
              exists a: Address :: AccountOf(Replay(Flatten(traces), d), a).nonce
                                != AccountOf(MergeAll(JoinAll(wave, db).value, db), a).nonce
  {
    var mid, d' := MergeAll(JoinAll(wave, db).value, db), Replay(Flatten(traces), d);
    WaveReadsAgree(wave, db, d, traces);
    if Replayable(wave) { ReplayableAgrees(wave); }
    if AllAgree(wave) { AgreesReplayable(wave); }
    forall a: Address
      ensures AccountOf(mid, a) == AccountOf(d', a).(nonce := AccountOf(mid, a).nonce)
      ensures AccountOf(d', a).nonce == AccountOf(mid, a).nonce <==> NonceStays(wave, a)
    {
      WaveEnds(wave, db, d, traces, a);
    }
    forall a: Address, slot: U256 ensures SlotOf(d', a, slot) == SlotOf(mid, a, slot) {
      SlotsReplayed(wave, db, db, d, traces, a, slot);
    }
  }

  // ---------- a whole run ----------

  /** Once a replayed nonce is off it stays off to the end of the run, or is read. */
  lemma {:induction false} NonceDriftRun(waves: seq<seq<TxAccessList>>, db: Db, d: Db, traces: seq<Trace>, a: Address)
    requires RunWaves(waves, db).error == None && RecordsRun(waves, db, traces)
    requires AccountOf(d, a).nonce != AccountOf(db, a).nonce
    ensures !Faithful(Flatten(traces), d, RunWaves(waves, db).db)
  {
    if waves != [] {
      var n := |waves[0]|;
      SplitFlatten(traces, n);
      ReplayConcat(Flatten(traces[..n]), Flatten(traces[n..]), d);
      if ReadsAgree(Flatten(traces[..n]), d) {
        DriftPassesWave(waves[0], db, d, traces[..n], a);
        NonceDriftRun(waves[1..], MergeAll(JoinAll(waves[0], db).value, db), Replay(Flatten(traces[..n]), d),
                      traces[n..], a);
      }
    }
  }

  /** A wave whose reads agree sends nothing from an account whose nonce is off, and so keeps it off. */
  lemma {:induction false} DriftPassesWave(wave: seq<TxAccessList>, db: Db, d: Db, traces: seq<Trace>, a: Address)
    requires RecordsWave(wave, db, traces) && JoinAll(wave, db).Ok? && AccountOf(d, a).nonce != AccountOf(db, a).nonce
    requires ReadsAgree(Flatten(traces), d)
    ensures AccountOf(Replay(Flatten(traces), d), a).nonce != AccountOf(MergeAll(JoinAll(wave, db).value, db), a).nonce
  {
    NothingSent(wave, db, d, traces, a);
    ReplayedLast(wave, db, d, traces, a);
    MergedLast(wave, db, db, a);
    LastToucherMeans(wave, a);
    SendsFromMeans(wave, a);
  }

  lemma {:induction false} NothingSent(wave: seq<TxAccessList>, db: Db, d: Db, traces: seq<Trace>, a: Address)
    requires RecordsWave(wave, db, traces) && AccountOf(d, a).nonce != AccountOf(db, a).nonce
    requires ReadsAgree(Flatten(traces), d)
    ensures !SendsFrom(wave, a)
  {
    if wave != [] {
      ReplayConcat(traces[0], Flatten(traces[1..]), d);
      ReplayTransfer(wave[0], db, d, traces[0], a, 0);
      RecordsTail(wave, db, traces);
      NothingSent(wave[1..], db, Replay(traces[0], d), traces[1..], a);
    }
  }

  lemma SplitFlatten(traces: seq<Trace>, n: nat)
    requires n <= |traces|
    ensures Flatten(traces) == Flatten(traces[..n]) + Flatten(traces[n..])
  {
    assert traces == traces[..n] + traces[n..];
    FlattenConcat(traces[..n], traces[n..]);
  }

  ghost predicate AllReplayable(waves: seq<seq<TxAccessList>>) {
    forall w :: 0 <= w < |waves| ==> Replayable(waves[w])
  }

  /** If the trace of the first wave does not explain it, nothing later can mend that. */
  lemma {:induction false} FirstWaveSpoils(waves: seq<seq<TxAccessList>>, db: Db, d: Db, traces: seq<Trace>)
    requires waves != [] && RunWaves(waves, db).error == None && RecordsRun(waves, db, traces) && SameState(d, db)
    requires !Replayable(waves[0])
    ensures !Faithful(Flatten(traces), d, RunWaves(waves, db).db)
  {
    var n, mid := |waves[0]|, MergeAll(JoinAll(waves[0], db).value, db);
    var d' := Replay(Flatten(traces[..n]), d);
    WaveTraceIff(waves[0], db, d, traces[..n]);
    SplitFlatten(traces, n);
    ReplayConcat(Flatten(traces[..n]), Flatten(traces[n..]), d);
    if ReadsAgree(Flatten(traces[..n]), d) {
      var a: Address :| AccountOf(d', a).nonce != AccountOf(mid, a).nonce;
      NonceDriftRun(waves[1..], mid, d', traces[n..], a);
    }
  }

  lemma {:induction false} RunTraceIff(waves: seq<seq<TxAccessList>>, db: Db, d: Db, traces: seq<Trace>)
    requires RunWaves(waves, db).error == None && RecordsRun(waves, db, traces) && SameState(d, db)
    ensures Faithful(Flatten(traces), d, RunWaves(waves, db).db) <==> AllReplayable(waves)
  {
    if waves != [] {
      var n := |waves[0]|;
      assert AllReplayable(waves) <==> Replayable(waves[0]) && AllReplayable(waves[1..]);
      if Replayable(waves[0]) {
        WaveTraceIff(waves[0], db, d, traces[..n]);
        SplitFlatten(traces, n);
        ReplayConcat(Flatten(traces[..n]), Flatten(traces[n..]), d);
        RunTraceIff(waves[1..], MergeAll(JoinAll(waves[0], db).value, db), Replay(Flatten(traces[..n]), d),
                    traces[n..]);
      } else {
        FirstWaveSpoils(waves, db, d, traces);
      }
    }
  }

  /**
   The witness trace of an Ok Grevm run explains the run, read by read and to the final state,
   exactly when every wave is replayable, whatever the access lists declare.
   */
  lemma GrevmTraceSound(txs: seq<TxAccessList>, db: Db, traces: seq<Trace>)
    requires RunWaves(WavesOf(txs), db).error == None && RecordsRun(WavesOf(txs), db, traces)
    ensures Faithful(Flatten(traces), db, RunWaves(WavesOf(txs), db).db) <==> AllReplayable(WavesOf(txs))
  {
    RunTraceIff(WavesOf(txs), db, db, traces);
  }

  // ---------- waves without clashes ----------

  /** Where no transfer changes an account that a later one touches, only self-transfers are in the way. */
  lemma {:induction false} ReplayableWithoutClashes(wave: seq<TxAccessList>)
    requires !Clashes(wave)
    ensures Replayable(wave) <==> NoSelfTransfers(wave)
  {
    if NoSelfTransfers(wave) {
      forall j | 0 <= j < |wave|
        ensures forall k :: j < k < |wave| ==> !Touches(wave[k], wave[j].sender)
        ensures LastToucher(wave[..j], wave[j].sender).Some? ==> LastToucher(wave[..j], wave[j].sender).value.value == 0
      {
        var a := wave[j].sender;
        assert ChangesAccount(wave[j], a);
        LastToucherMeans(wave[..j], a);
        if LastToucher(wave[..j], a).Some? {
          var i: nat :| LastAt(wave[..j], a, i) && wave[..j][i] == LastToucher(wave[..j], a).value;
          assert !ChangesAccount(wave[i], a);
        }
      }
    }
  }

  /** So without clashes the trace is sound exactly for blocks without self-transfers. */
  lemma {:induction false} TraceSoundWithoutClashes(txs: seq<TxAccessList>, db: Db, traces: seq<Trace>)
    requires NoneClash(WavesOf(txs)) && RunWaves(WavesOf(txs), db).error == None
    requires RecordsRun(WavesOf(txs), db, traces)
    ensures Faithful(Flatten(traces), db, RunWaves(WavesOf(txs), db).db) <==> NoSelfTransfers(txs)
  {
    GrevmTraceSound(txs, db, traces);
    WavesCover(txs);
    NoSelfTransfersPermuted(Flatten(WavesOf(txs)), txs);
    forall w | 0 <= w < |WavesOf(txs)| ensures Replayable(WavesOf(txs)[w]) <==> NoSelfTransfers(WavesOf(txs)[w]) {
      ReplayableWithoutClashes(WavesOf(txs)[w]);
    }
    NoSelfTransfersByWave(WavesOf(txs));
  }

  lemma {:induction false} NoSelfTransfersByWave(waves: seq<seq<TxAccessList>>)
    ensures NoSelfTransfers(Flatten(waves)) <==> forall w :: 0 <= w < |waves| ==> NoSelfTransfers(waves[w])
  {
    if waves != [] {
      NoSelfTransfersByWave(waves[1..]);
      assert forall w :: 0 < w < |waves| ==> waves[w] == waves[1..][w - 1];
      assert forall w :: 0 <= w < |waves[1..]| ==> waves[1..][w] == waves[w + 1];
      NoSelfTransfersConcat(waves[0], Flatten(waves[1..]));
    }
  }

  lemma NoSelfTransfersConcat(s: seq<TxAccessList>, t: seq<TxAccessList>)
    ensures NoSelfTransfers(s + t) <==> NoSelfTransfers(s) && NoSelfTransfers(t)
  {
    assert forall i :: 0 <= i < |s| ==> (s + t)[i] == s[i];
    assert forall i :: 0 <= i < |t| ==> (s + t)[|s| + i] == t[i];
  }
}
