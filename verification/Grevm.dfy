/** `GrevmExecutor`: the wave engine again, recording a witness trace of reads and writes. */
module Grevm {
  import opened Machine
  import opened State
  import opened Transfers
  import opened Ordering
  import opened Waves
  import opened WaveEngine

  datatype TraceRecord =
    | ReadAccount(addr: Address, balance: U256, nonce: u64)
    | WriteSender(addr: Address, balance: U256, nonce: u64)
    | WriteRecipient(addr: Address, balance: U256)
    | WriteStorage(addr: Address, slot: U256, val: U256)

  type Trace = seq<TraceRecord>

  /** The storage records of one transfer: its slot writes in some iteration order of the hash maps. */
  ghost predicate RecordsSlots(tx: TxAccessList, rs: Trace) {
    && (forall i :: 0 <= i < |rs| ==> rs[i].WriteStorage? && WritesSlot(tx, rs[i].addr, rs[i].slot)
                                      && rs[i].val == SlotValue(tx, rs[i].slot))
    && (forall a: Address, slot: U256 :: WritesSlot(tx, a, slot)
          ==> WriteStorage(a, slot, SlotValue(tx, slot)) in rs)
  }

  /** `trace` is a record of the accepted transfer `tx` run against `snapshot`. */
  ghost predicate Records(tx: TxAccessList, snapshot: Db, trace: Trace) {
    var sender, recipient := AccountOf(snapshot, tx.sender), AccountOf(snapshot, tx.recipient);
    && Admits(tx, snapshot) && |trace| >= 3
    && trace[0] == ReadAccount(tx.sender, sender.balance, sender.nonce)
    && trace[1] == WriteSender(tx.sender, Debited(tx, sender).balance, Debited(tx, sender).nonce)
    && trace[2] == WriteRecipient(tx.recipient, Credited(tx, recipient).balance)
    && RecordsSlots(tx, trace[3..])
  }

  /** One trace a transfer for the waves that were merged; each wave reads its own snapshot. */
  ghost predicate RecordsRun(waves: seq<seq<TxAccessList>>, db: Db, traces: seq<Trace>) {
    if waves == [] then traces == []
    else match JoinAll(waves[0], db)
      case Err(_) => traces == []
      case Ok(results) =>
        && |waves[0]| <= |traces|
        && RecordsWave(waves[0], db, traces[..|waves[0]|])
        && RecordsRun(waves[1..], MergeAll(results, db), traces[|waves[0]|..])
  }

  ghost predicate RecordsWave(wave: seq<TxAccessList>, snapshot: Db, traces: seq<Trace>) {
    |traces| == |wave| && forall i :: 0 <= i < |wave| ==> Records(wave[i], snapshot, traces[i])
  }

  // ---------- the loops ----------

  method RecordSlots(tx: TxAccessList) returns (writes: map<Address, map<U256, U256>>, trace: Trace)
    ensures writes == SimulatedWrites(tx) && RecordsSlots(tx, trace)
  {
    writes, trace := map[], [];
    var addrs := tx.writeSlots.Keys;
    while addrs != {}
      invariant addrs <= tx.writeSlots.Keys && writes.Keys == tx.writeSlots.Keys - addrs
      invariant forall a :: a in writes ==> writes[a] == SimulatedWrites(tx)[a]
      invariant forall i :: 0 <= i < |trace| ==>
                  trace[i].WriteStorage? && WritesSlot(tx, trace[i].addr, trace[i].slot)
                  && trace[i].val == SlotValue(tx, trace[i].slot)
      invariant forall a: Address, slot: U256 :: WritesSlot(tx, a, slot) && a !in addrs
                  ==> WriteStorage(a, slot, SlotValue(tx, slot)) in trace
      decreases addrs
    {
      var a :| a in addrs;
      var inner: map<U256, U256> := map[];
      var slots := tx.writeSlots[a];
      ghost var before := trace;
      while slots != {}
        invariant slots <= tx.writeSlots[a] && inner.Keys == tx.writeSlots[a] - slots
        invariant forall slot :: slot in inner ==> inner[slot] == SlotValue(tx, slot)
        invariant before <= trace
        invariant forall i :: 0 <= i < |trace| ==>
                    trace[i].WriteStorage? && WritesSlot(tx, trace[i].addr, trace[i].slot)
                    && trace[i].val == SlotValue(tx, trace[i].slot)
        invariant forall slot :: slot in inner ==> WriteStorage(a, slot, SlotValue(tx, slot)) in trace
        decreases slots
      {
        var slot :| slot in slots;
        var val := SlotValue(tx, slot);
        inner := inner[slot := val];
        trace := trace + [WriteStorage(a, slot, val)];
        slots := slots - {slot};
      }
      assert inner == SimulatedWrites(tx)[a];
      writes := writes[a := inner];
      addrs := addrs - {a};
    }
  }

  method RunTracedThread(tx: TxAccessList, snapshot: Db) returns (r: Result<WaveTxResult, ExecError>, trace: Trace)
    ensures r == RunOnSnapshot(tx, snapshot)
    ensures r.Ok? ==> Records(tx, snapshot, trace)
  {
    var senderAcc := AccountOf(snapshot, tx.sender);
    trace := [ReadAccount(tx.sender, senderAcc.balance, senderAcc.nonce)];
    if senderAcc.nonce != tx.nonce {
      return Err(NonceMismatch(tx.sender, tx.nonce, senderAcc.nonce)), trace;
    }
    if senderAcc.balance < tx.value {
      return Err(InsufficientBalance(tx.sender)), trace;
    }
    senderAcc := senderAcc.(balance := senderAcc.balance - tx.value);
    senderAcc := senderAcc.(nonce := WrappingAdd64(senderAcc.nonce, 1));
    trace := trace + [WriteSender(tx.sender, senderAcc.balance, senderAcc.nonce)];
    var recipientAcc := AccountOf(snapshot, tx.recipient);
    recipientAcc := recipientAcc.(balance := WrappingAdd256(recipientAcc.balance, tx.value));
    trace := trace + [WriteRecipient(tx.recipient, recipientAcc.balance)];
    var writes, slotTrace := RecordSlots(tx);
    assert (trace + slotTrace)[3..] == slotTrace;
    trace := trace + slotTrace;
    r := Ok(WaveTxResult(tx.sender, senderAcc, tx.recipient, recipientAcc, writes));
  }

  method ExecuteTracedWave(wave: seq<TxAccessList>, db: WitnessDatabase)
    returns (error: Option<ExecError>, traces: seq<Trace>)
    modifies db
    ensures match JoinAll(wave, old(db.Contents()))
            case Err(e) => error == Some(e) && db.Contents() == old(db.Contents()) && traces == []
            case Ok(results) => error == None && db.Contents() == MergeAll(results, old(db.Contents()))
                                && RecordsWave(wave, old(db.Contents()), traces)
  {
    var snapshot := db.Contents();
    var handles: seq<Result<WaveTxResult, ExecError>> := [];
    traces := [];
    for i := 0 to |wave|
      invariant |handles| == |traces| == i && db.Contents() == snapshot
      invariant forall j :: 0 <= j < i ==> handles[j] == RunOnSnapshot(wave[j], snapshot)
      invariant forall j :: 0 <= j < i && handles[j].Ok? ==> Records(wave[j], snapshot, traces[j])
    {
      var handle, trace := RunTracedThread(wave[i], snapshot);
      handles, traces := handles + [handle], traces + [trace];
    }
    var joined := JoinHandles(handles, wave, snapshot);
    if joined.Err? {
      return Some(joined.error), [];
    }
    JoinedAllOk(wave, snapshot);
    MergeResults(joined.value, db);
    error := None;
  }

  lemma {:induction false} JoinedAllOk(wave: seq<TxAccessList>, snapshot: Db)
    requires JoinAll(wave, snapshot).Ok?
    ensures forall i :: 0 <= i < |wave| ==> RunOnSnapshot(wave[i], snapshot).Ok?
  {
    if wave != [] {
      JoinedAllOk(wave[1..], snapshot);
      assert forall i :: 1 <= i < |wave| ==> wave[i] == wave[1..][i - 1];
    }
  }

  /** Grevm: the same result and database as the wave engine on every input, and a trace of the run. */
  method Execute(txs: seq<TxAccessList>, db: WitnessDatabase)
    returns (r: Result<(), ExecError>, traces: seq<Trace>)
    requires DistinctIndices(txs)
    modifies db
    ensures var o := RunWaves(WavesOf(txs), old(db.Contents()));
            db.Contents() == o.db && r == match o.error case None => Ok(()) case Some(e) => Err(e)
    ensures RecordsRun(WavesOf(txs), old(db.Contents()), traces)
  {
    var waves := PartitionWaves(txs);
    ghost var start := db.Contents();
    traces := [];
    assert waves[0..] == waves && forall rest: seq<Trace> :: traces + rest == rest;
    assert RecordedSoFar(waves, 0, start, start, traces);
    for w := 0 to |waves|
      invariant RunWaves(waves, start).db == RunWaves(waves[w..], db.Contents()).db
      invariant RunWaves(waves, start).error == RunWaves(waves[w..], db.Contents()).error
      invariant RecordedSoFar(waves, w, start, db.Contents(), traces)
    {
      assert waves[w..][0] == waves[w] && waves[w..][1..] == waves[w + 1..];
      ghost var before := db.Contents();
      var error, waveTraces := ExecuteTracedWave(waves[w], db);
      if error.Some? {
        RecordedEnd(waves, w, start, before, traces);
        return Err(error.value), traces;
      }
      RecordedNext(waves, w, start, before, traces, waveTraces);
      traces := traces + waveTraces;
    }
    RecordedEnd(waves, |waves|, start, db.Contents(), traces);
    r := Ok(());
  }

  /** After `w` waves: what is recorded, continued by a record of the rest, records the whole run. */
  ghost predicate RecordedSoFar(waves: seq<seq<TxAccessList>>, w: nat, start: Db, now: Db, traces: seq<Trace>)
    requires w <= |waves|
  {
    forall rest :: RecordsRun(waves[w..], now, rest) ==> RecordsRun(waves, start, traces + rest)
  }

  lemma RecordedNext(waves: seq<seq<TxAccessList>>, w: nat, start: Db, now: Db, traces: seq<Trace>, more: seq<Trace>)
    requires w < |waves| && RecordedSoFar(waves, w, start, now, traces)
    requires JoinAll(waves[w], now).Ok? && RecordsWave(waves[w], now, more)
    ensures RecordedSoFar(waves, w + 1, start, MergeAll(JoinAll(waves[w], now).value, now), traces + more)
  {
    var next := MergeAll(JoinAll(waves[w], now).value, now);
    assert waves[w..][0] == waves[w] && waves[w..][1..] == waves[w + 1..];
    forall rest | RecordsRun(waves[w + 1..], next, rest) ensures RecordsRun(waves, start, traces + more + rest) {
      assert (more + rest)[..|waves[w]|] == more && (more + rest)[|waves[w]|..] == rest;
      assert RecordsRun(waves[w..], now, more + rest);
      assert traces + (more + rest) == traces + more + rest;
    }
  }

  lemma RecordedEnd(waves: seq<seq<TxAccessList>>, w: nat, start: Db, now: Db, traces: seq<Trace>)
    requires w <= |waves| && RecordedSoFar(waves, w, start, now, traces)
    requires w < |waves| ==> JoinAll(waves[w], now).Err?
    ensures RecordsRun(waves, start, traces)
  {
    assert RecordsRun(waves[w..], now, []);
    assert traces + [] == traces;
  }
}
