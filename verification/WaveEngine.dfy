/** `WaveExecutor::execute_parallel_access_lists`: each wave runs from one snapshot and is then merged. */
module WaveEngine {
  import opened Machine
  import opened State
  import opened Transfers
  import opened Ordering
  import opened Waves

  datatype WaveTxResult = WaveTxResult(
    senderAddr: Address,
    senderAcc: AccountWitness,
    recipientAddr: Address,
    recipientAcc: AccountWitness,
    writeSlots: map<Address, map<U256, U256>>)

  // ---------- the run as a function ----------

  /** One thread: it reads nothing but the snapshot. */
  function RunOnSnapshot(tx: TxAccessList, snapshot: Db): Result<WaveTxResult, ExecError> {
    var sender := AccountOf(snapshot, tx.sender);
    match Rejection(tx, sender)
    case Some(e) => Err(e)
    case None => Ok(WaveTxResult(tx.sender, Debited(tx, sender),
                                 tx.recipient, Credited(tx, AccountOf(snapshot, tx.recipient)),
                                 SimulatedWrites(tx)))
  }

  /** Joining the threads in order: the first failure wins. */
  function JoinAll(wave: seq<TxAccessList>, snapshot: Db): Result<seq<WaveTxResult>, ExecError> {
    if wave == [] then Ok([])
    else match RunOnSnapshot(wave[0], snapshot)
      case Err(e) => Err(e)
      case Ok(res) =>
        match JoinAll(wave[1..], snapshot)
        case Err(e) => Err(e)
        case Ok(more) => Ok([res] + more)
  }

  function Merge(res: WaveTxResult, db: Db): Db {
    Db(db.accounts[res.senderAddr := res.senderAcc][res.recipientAddr := res.recipientAcc],
       MergeStorage(db.storage, res.writeSlots))
  }

  function MergeAll(results: seq<WaveTxResult>, db: Db): Db {
    if results == [] then db else MergeAll(results[1..], Merge(results[0], db))
  }

  /** The database an execution leaves, how many waves it merged, and its error if any. */
  datatype Outcome = Outcome(db: Db, merged: nat, error: Option<ExecError>)

  function RunWaves(waves: seq<seq<TxAccessList>>, db: Db): Outcome {
    if waves == [] then Outcome(db, 0, None)
    else match JoinAll(waves[0], db)
      case Err(e) => Outcome(db, 0, Some(e))
      case Ok(results) =>
        var o := RunWaves(waves[1..], MergeAll(results, db));
        o.(merged := o.merged + 1)
  }

  // ---------- the loops ----------

  method SimulateWrites(tx: TxAccessList) returns (writes: map<Address, map<U256, U256>>)
    ensures writes == SimulatedWrites(tx)
    ensures writes.Keys == tx.writeSlots.Keys
    ensures forall a :: a in writes ==> writes[a].Keys == tx.writeSlots[a]
    ensures forall a, slot :: a in writes && slot in writes[a] ==>
              writes[a][slot] == (slot + (tx.index + 1) % TWO_64) % TWO_256
  {
    writes := map[];
    var addrs := tx.writeSlots.Keys;
    while addrs != {}
      invariant addrs <= tx.writeSlots.Keys && writes.Keys == tx.writeSlots.Keys - addrs
      invariant forall a :: a in writes ==> writes[a] == SimulatedWrites(tx)[a]
      decreases addrs
    {
      var a :| a in addrs;
      var inner: map<U256, U256> := map[];
      var slots := tx.writeSlots[a];
      while slots != {}
        invariant slots <= tx.writeSlots[a] && inner.Keys == tx.writeSlots[a] - slots
        invariant forall slot :: slot in inner ==> inner[slot] == SlotValue(tx, slot)
        decreases slots
      {
        var slot :| slot in slots;
        inner := inner[slot := SlotValue(tx, slot)];
        slots := slots - {slot};
      }
      assert inner == SimulatedWrites(tx)[a];
      writes := writes[a := inner];
      addrs := addrs - {a};
    }
  }

  method RunThread(tx: TxAccessList, snapshot: Db) returns (r: Result<WaveTxResult, ExecError>)
    ensures r == RunOnSnapshot(tx, snapshot)
    ensures var sender, recipient := AccountOf(snapshot, tx.sender), AccountOf(snapshot, tx.recipient);
            if sender.nonce != tx.nonce then r == Err(NonceMismatch(tx.sender, tx.nonce, sender.nonce))
            else if sender.balance < tx.value then r == Err(InsufficientBalance(tx.sender))
            else r.Ok? && r.value.senderAddr == tx.sender && r.value.recipientAddr == tx.recipient
                 && r.value.senderAcc == sender.(balance := sender.balance - tx.value,
                                                 nonce := (sender.nonce + 1) % TWO_64)
                 && r.value.recipientAcc == recipient.(balance := (recipient.balance + tx.value) % TWO_256)
  {
    var senderAcc := AccountOf(snapshot, tx.sender);
    if senderAcc.nonce != tx.nonce {
      return Err(NonceMismatch(tx.sender, tx.nonce, senderAcc.nonce));
    }
    if senderAcc.balance < tx.value {
      return Err(InsufficientBalance(tx.sender));
    }
    senderAcc := senderAcc.(balance := senderAcc.balance - tx.value);
    senderAcc := senderAcc.(nonce := WrappingAdd64(senderAcc.nonce, 1));
    var recipientAcc := AccountOf(snapshot, tx.recipient);
    recipientAcc := recipientAcc.(balance := WrappingAdd256(recipientAcc.balance, tx.value));
    var writes := SimulateWrites(tx);
    r := Ok(WaveTxResult(tx.sender, senderAcc, tx.recipient, recipientAcc, writes));
  }

  method InsertAll(target: map<U256, U256>, writes: map<U256, U256>) returns (merged: map<U256, U256>)
    ensures merged == target + writes
  {
    merged := target;
    var slots := writes.Keys;
    while slots != {}
      invariant slots <= writes.Keys
      invariant merged.Keys == target.Keys + (writes.Keys - slots)
      invariant forall slot :: slot in merged ==>
                  merged[slot] == if slot in writes && slot !in slots then writes[slot] else target[slot]
      decreases slots
    {
      var slot :| slot in slots;
      merged := merged[slot := writes[slot]];
      slots := slots - {slot};
    }
  }

  method MergeResult(res: WaveTxResult, db: WitnessDatabase)
    modifies db
    ensures db.Contents() == Merge(res, old(db.Contents()))
  {
    db.accounts := db.accounts[res.senderAddr := res.senderAcc];
    db.accounts := db.accounts[res.recipientAddr := res.recipientAcc];
    var addrs := res.writeSlots.Keys;
    while addrs != {}
      invariant addrs <= res.writeSlots.Keys
      invariant db.accounts == old(db.accounts)[res.senderAddr := res.senderAcc][res.recipientAddr := res.recipientAcc]
      invariant db.storage.Keys == old(db.storage).Keys + (res.writeSlots.Keys - addrs)
      invariant forall a: Address :: SlotsAt(db.storage, a) ==
                  if a in addrs then SlotsAt(old(db.storage), a)
                  else SlotsAt(old(db.storage), a) + SlotsAt(res.writeSlots, a)
      decreases addrs
    {
      var a :| a in addrs;
      var dbSlots := InsertAll(SlotsAt(db.storage, a), res.writeSlots[a]);
      db.storage := db.storage[a := dbSlots];
      addrs := addrs - {a};
    }
    assert db.storage == MergeStorage(old(db.storage), res.writeSlots);
  }

  /** Joins the threads in order, stopping at the first error. */
  method JoinHandles(handles: seq<Result<WaveTxResult, ExecError>>, ghost wave: seq<TxAccessList>, ghost snapshot: Db)
    returns (r: Result<seq<WaveTxResult>, ExecError>)
    requires |handles| == |wave| && forall j :: 0 <= j < |wave| ==> handles[j] == RunOnSnapshot(wave[j], snapshot)
    ensures r == JoinAll(wave, snapshot)
  {
    var results: seq<WaveTxResult> := [];
    assert wave[0..] == wave && forall more: seq<WaveTxResult> :: results + more == more;
    for i := 0 to |handles|
      invariant JoinAll(wave, snapshot) == match JoinAll(wave[i..], snapshot)
                                           case Err(e) => Err(e)
                                           case Ok(more) => Ok(results + more)
    {
      assert wave[i..][0] == wave[i] && wave[i..][1..] == wave[i + 1..];
      if handles[i].Err? {
        return Err(handles[i].error);
      }
      assert forall more :: results + [handles[i].value] + more == results + ([handles[i].value] + more);
      results := results + [handles[i].value];
    }
    assert JoinAll(wave[|wave|..], snapshot) == Ok([]) && results + [] == results;
    r := Ok(results);
  }

  method MergeResults(results: seq<WaveTxResult>, db: WitnessDatabase)
    modifies db
    ensures db.Contents() == MergeAll(results, old(db.Contents()))
  {
    assert results[0..] == results;
    for i := 0 to |results|
      invariant MergeAll(results[i..], db.Contents()) == MergeAll(results, old(db.Contents()))
    {
      assert results[i..][1..] == results[i + 1..];
      MergeResult(results[i], db);
    }
    assert results[|results|..] == [];
  }

  /** One wave: spawn every thread on the snapshot, join them in order, then merge. */
  method ExecuteWave(wave: seq<TxAccessList>, db: WitnessDatabase) returns (error: Option<ExecError>)
    modifies db
    ensures match JoinAll(wave, old(db.Contents()))
            case Err(e) => error == Some(e) && db.Contents() == old(db.Contents())
            case Ok(results) => error == None && db.Contents() == MergeAll(results, old(db.Contents()))
  {
    var snapshot := db.Contents();
    var handles: seq<Result<WaveTxResult, ExecError>> := [];
    for i := 0 to |wave|
      invariant |handles| == i && forall j :: 0 <= j < i ==> handles[j] == RunOnSnapshot(wave[j], snapshot)
      invariant db.Contents() == snapshot
    {
      var handle := RunThread(wave[i], snapshot);
      handles := handles + [handle];
    }
    var joined := JoinHandles(handles, wave, snapshot);
    if joined.Err? {
      return Some(joined.error);
    }
    MergeResults(joined.value, db);
    error := None;
  }

  /** The wave engine. Its result is a function of the waves and the database, whatever the threads do. */
  method Execute(txs: seq<TxAccessList>, db: WitnessDatabase) returns (r: Result<(), ExecError>)
    requires DistinctIndices(txs)
    modifies db
    ensures var o := RunWaves(WavesOf(txs), old(db.Contents()));
            db.Contents() == o.db && r == match o.error case None => Ok(()) case Some(e) => Err(e)
  {
    var waves := PartitionWaves(txs);
    ghost var start := db.Contents();
    for w := 0 to |waves|
      invariant RunWaves(waves, start).db == RunWaves(waves[w..], db.Contents()).db
      invariant RunWaves(waves, start).error == RunWaves(waves[w..], db.Contents()).error
    {
      assert waves[w..][0] == waves[w] && waves[w..][1..] == waves[w + 1..];
      var error := ExecuteWave(waves[w], db);
      if error.Some? {
        return Err(error.value);
      }
    }
    r := Ok(());
  }
}
