/** `PevmExecutor::execute_parallel_access_lists`: the loops, under every interleaving of the threads. */
module PevmEngine {
  import opened Machine
  import opened State
  import opened Transfers
  import opened Mvcc
  import opened CommitLog
  import opened Pevm

  method ReadAccounts(tx: TxAccessList, mvcc: MvccState, backing: Db)
    returns (sender: Read<AccountWitness>, recipient: Read<AccountWitness>, found: map<Address, Read<AccountWitness>>)
    ensures sender == ReadAccount(mvcc.Contents(), tx.index, tx.sender, backing)
    ensures recipient == ReadAccount(mvcc.Contents(), tx.index, tx.recipient, backing)
    ensures found == map a | a in AccountsRead(tx) :: ReadAccount(mvcc.Contents(), tx.index, a, backing)
    ensures found.Keys == {tx.sender, tx.recipient} + tx.readAddresses
  {
    sender := mvcc.ReadAccountVersion(tx.index, tx.sender, backing);
    recipient := mvcc.ReadAccountVersion(tx.index, tx.recipient, backing);
    found := map[tx.sender := sender];
    found := found[tx.recipient := recipient];
    var addrs := tx.readAddresses;
    while addrs != {}
      invariant addrs <= tx.readAddresses
      invariant found.Keys == AccountsRead(tx) - (addrs - {tx.sender, tx.recipient})
      invariant forall a :: a in found ==> found[a] == ReadAccount(mvcc.Contents(), tx.index, a, backing)
      decreases addrs
    {
      var a :| a in addrs;
      addrs := addrs - {a};
      if a !in found {
        var read := mvcc.ReadAccountVersion(tx.index, a, backing);
        found := found[a := read];
      }
    }
  }

  method ReadSlots(tx: TxAccessList, mvcc: MvccState, backing: Db) returns (found: map<Slot, Read<U256>>)
    ensures found == map k | k in SlotsRead(tx) :: ReadSlot(mvcc.Contents(), tx.index, k, backing)
    ensures forall a, slot :: (a, slot) in found <==> a in tx.readSlots && slot in tx.readSlots[a]
  {
    found := map[];
    var keys := SlotsRead(tx);
    while keys != {}
      invariant keys <= SlotsRead(tx) && found.Keys == SlotsRead(tx) - keys
      invariant forall k :: k in found ==> found[k] == ReadSlot(mvcc.Contents(), tx.index, k, backing)
      decreases keys
    {
      var k :| k in keys;
      keys := keys - {k};
      var read := mvcc.ReadStorageVersion(tx.index, k, backing);
      found := found[k := read];
    }
  }

  /** A thread's critical section and what it computes from it. */
  method TakeThreadSnapshot(tx: TxAccessList, mvcc: MvccState, backing: Db) returns (r: ThreadResult)
    ensures r == RunThread(tx, mvcc.Contents(), backing)
    ensures var acc := ReadAccount(mvcc.Contents(), tx.index, tx.sender, backing).val;
            if acc.nonce != tx.nonce then r == Failed(NonceMismatch(tx.sender, tx.nonce, acc.nonce))
            else if acc.balance < tx.value then r == Failed(InsufficientBalance(tx.sender))
            else r.Done? && r.readAccounts.Keys == {tx.sender, tx.recipient} + tx.readAddresses
                 && forall a, slot :: (a, slot) in r.readSlots <==> a in tx.readSlots && slot in tx.readSlots[a]
  {
    var sender, recipient, readAccounts := ReadAccounts(tx, mvcc, backing);
    var readSlots := ReadSlots(tx, mvcc, backing);
    var senderAcc := sender.val;
    if senderAcc.nonce != tx.nonce {
      return Failed(NonceMismatch(tx.sender, tx.nonce, senderAcc.nonce));
    }
    if senderAcc.balance < tx.value {
      return Failed(InsufficientBalance(tx.sender));
    }
    senderAcc := senderAcc.(balance := senderAcc.balance - tx.value);
    senderAcc := senderAcc.(nonce := WrappingAdd64(senderAcc.nonce, 1));
    var recipientAcc := recipient.val.(balance := WrappingAdd256(recipient.val.balance, tx.value));
    r := Done(readAccounts, readSlots, senderAcc, recipientAcc);
  }

  /** Compare the versions read with the versions there are now. */
  method FindConflict(res: ThreadResult, tx: TxAccessList, mvcc: MvccState, backing: Db) returns (conflict: bool)
    requires res.Done?
    ensures conflict <==> !Validates(res, tx, mvcc.Contents(), backing)
  {
    conflict := false;
    var addrs := res.readAccounts.Keys;
    while addrs != {}
      invariant addrs <= res.readAccounts.Keys
      invariant forall a :: a in res.readAccounts && a !in addrs ==>
                  ReadAccount(mvcc.Contents(), tx.index, a, backing).version == res.readAccounts[a].version
      decreases addrs
    {
      var a :| a in addrs;
      addrs := addrs - {a};
      var now := mvcc.ReadAccountVersion(tx.index, a, backing);
      if now.version != res.readAccounts[a].version {
        return true;
      }
    }
    var keys := res.readSlots.Keys;
    while keys != {}
      invariant keys <= res.readSlots.Keys
      invariant forall k :: k in res.readSlots && k !in keys ==>
                  ReadSlot(mvcc.Contents(), tx.index, k, backing).version == res.readSlots[k].version
      decreases keys
    {
      var k :| k in keys;
      keys := keys - {k};
      var now := mvcc.ReadStorageVersion(tx.index, k, backing);
      if now.version != res.readSlots[k].version {
        return true;
      }
    }
  }

  method CommitSlots(tx: TxAccessList, mvcc: MvccState)
    modifies mvcc
    ensures mvcc.accounts == old(mvcc.accounts)
    ensures mvcc.slots.Keys == old(mvcc.slots).Keys + SlotKeys(tx)
    ensures forall k :: k in mvcc.slots ==>
              mvcc.slots[k] ==
                if k in SlotKeys(tx) then Put(VersionsAt(old(mvcc.slots), k), tx.index, SlotValue(tx, k.1))
                               else old(mvcc.slots)[k]
  {
    var keys := SlotKeys(tx);
    while keys != {}
      invariant keys <= SlotKeys(tx) && mvcc.accounts == old(mvcc.accounts)
      invariant mvcc.slots.Keys == old(mvcc.slots).Keys + (SlotKeys(tx) - keys)
      invariant forall k :: VersionsAt(mvcc.slots, k) == CommittedSlot(tx, old(mvcc.slots), k, k in SlotKeys(tx)
              && k !in keys)
      decreases keys
    {
      var k :| k in keys;
      keys := keys - {k};
      mvcc.WriteStorageVersion(tx.index, k, SlotValue(tx, k.1));
    }
    forall k | k in mvcc.slots
      ensures mvcc.slots[k] ==
          if k in SlotKeys(tx) then Put(VersionsAt(old(mvcc.slots), k), tx.index, SlotValue(tx, k.1))
                               else old(mvcc.slots)[k]
    {
      assert VersionsAt(mvcc.slots, k) == CommittedSlot(tx, old(mvcc.slots), k, k in SlotKeys(tx));
    }
  }

  ghost function CommittedSlot(tx: TxAccessList, slots: map<Slot, Versions<U256>>, k: Slot,
                               done: bool): Versions<U256> {
    if done then Put(VersionsAt(slots, k), tx.index, SlotValue(tx, k.1)) else VersionsAt(slots, k)
  }

  method CommitWrites(tx: TxAccessList, res: ThreadResult, mvcc: MvccState)
    requires res.Done?
    modifies mvcc
    ensures mvcc.Contents() == CommitTo(old(mvcc.Contents()), tx, res.senderAcc, res.recipientAcc)
  {
    mvcc.WriteAccountVersion(tx.index, tx.sender, res.senderAcc);
    mvcc.WriteAccountVersion(tx.index, tx.recipient, res.recipientAcc);
    CommitSlots(tx, mvcc);
  }

  /** Stores the last version of every account that has one in the backing database. */
  method FinalizeAccounts(store: Store, db: WitnessDatabase)
    modifies db
    ensures db.storage == old(db.storage)
    ensures forall a: Address :: AccountOf(db.Contents(), a) == FinalAccount(store, old(db.Contents()), a)
  {
    var addrs := store.accounts.Keys;
    while addrs != {}
      invariant addrs <= store.accounts.Keys && db.storage == old(db.storage)
      invariant forall a: Address :: AccountOf(db.Contents(), a) ==
                  if a in addrs then AccountOf(old(db.Contents()), a) else FinalAccount(store, old(db.Contents()), a)
      decreases addrs
    {
      var a :| a in addrs;
      addrs := addrs - {a};
      if store.accounts[a] != [] {
        db.accounts := db.accounts[a := LastValue<AccountWitness>(store.accounts[a])];
      }
    }
  }

  method FinalizeStorage(store: Store, db: WitnessDatabase)
    modifies db
    ensures db.accounts == old(db.accounts)
    ensures forall a: Address, slot: U256 ::
              SlotOf(db.Contents(), a, slot) == FinalSlot(store, old(db.Contents()), (a, slot))
  {
    var keys := store.slots.Keys;
    while keys != {}
      invariant keys <= store.slots.Keys && db.accounts == old(db.accounts)
      invariant forall a: Address, slot: U256 :: SlotOf(db.Contents(), a, slot) ==
                  if (a, slot) in keys then SlotOf(old(db.Contents()), a, slot)
                  else FinalSlot(store, old(db.Contents()), (a, slot))
      decreases keys
    {
      var k :| k in keys;
      keys := keys - {k};
      if store.slots[k] != [] {
        db.storage := db.storage[k.0 := SlotsAt(db.storage, k.0)[k.1 := LastValue<U256>(store.slots[k])]];
      }
    }
  }

  /** The loop variables of the engine are those of the state machine. */
  ghost predicate Tracks(txs: Txs, backing: Db, steps: seq<Step>, s: Run, mvcc: Store, executed: seq<bool>,
                         retry: nat, handles: map<nat, ThreadResult>)
  {
    && AfterSteps(txs, backing, steps) == Some(s) && s.status == Running && |s.executed| == |txs|
    && s.store == mvcc && s.executed == executed && s.round == retry
    && s.snaps.Keys == handles.Keys && forall i :: i in handles ==> s.snaps[i].result == handles[i]
  }

  lemma OneMore(txs: Txs, backing: Db, steps: seq<Step>, step: Step)
    requires AfterSteps(txs, backing, steps).Some? && Enabled(txs, AfterSteps(txs, backing, steps).value, step)
    ensures AfterSteps(txs, backing, steps + [step])
            == Some(Next(txs, backing, AfterSteps(txs, backing, steps).value, step))
  {
    assert (steps + [step])[..|steps|] == steps;
  }

  lemma SnapshotTracks(txs: Txs, backing: Db, steps: seq<Step>, s: Run, mvcc: Store, executed: seq<bool>, retry: nat,
                       handles: map<nat, ThreadResult>, i: nat)
    requires Tracks(txs, backing, steps, s, mvcc, executed, retry, handles)
    requires s.cursor <= i < |txs| && !executed[i] && i !in handles
    ensures var s' := Next(txs, backing, s, TakeSnapshot(i));
            Tracks(txs, backing, steps + [TakeSnapshot(i)], s', mvcc, executed, retry, handles[i := RunThread(txs[i],
                    mvcc, backing)])
            && s'.cursor == s.cursor
  {
    OneMore(txs, backing, steps, TakeSnapshot(i));
  }

  function UpTo(n: nat): (s: set<nat>)
    ensures forall i: nat :: i in s <==> i < n
  {
    if n == 0 then {} else UpTo(n - 1) + {n - 1}
  }

  /** Threads that get the mutex before the next join: any of them, in any order. */
  method LetThreadsRun(txs: Txs, backing: Db, mvcc: MvccState, executed: seq<bool>, idx: nat,
                       handles: map<nat, ThreadResult>, ghost steps: seq<Step>, ghost s: Run, ghost retry: nat)
    returns (handles': map<nat, ThreadResult>, ghost steps': seq<Step>, ghost s': Run)
    requires Tracks(txs, backing, steps, s, mvcc.Contents(), executed, retry, handles) && s.cursor == idx <= |txs|
    ensures Tracks(txs, backing, steps', s', mvcc.Contents(), executed, retry, handles') && s'.cursor == idx
  {
    handles', steps', s' := handles, steps, s;
    ghost var waiting := UpTo(|txs|) - handles.Keys;
    while *
      invariant Tracks(txs, backing, steps', s', mvcc.Contents(), executed, retry, handles') && s'.cursor == idx
      invariant waiting == UpTo(|txs|) - handles'.Keys
      decreases waiting
    {
      var i: int := *;
      if !(idx <= i < |txs| && !executed[i] && i !in handles') { break; }
      var result := TakeThreadSnapshot(txs[i], mvcc, backing);
      SnapshotTracks(txs, backing, steps', s', mvcc.Contents(), executed, retry, handles', i);
      s', steps' := Next(txs, backing, s', TakeSnapshot(i)), steps' + [TakeSnapshot(i)];
      handles' := handles'[i := result];
      assert i in waiting;
      waiting := waiting - {i};
    }
  }

  /** Joining a thread waits until it has had the mutex. */
  method AwaitThread(txs: Txs, backing: Db, mvcc: MvccState, executed: seq<bool>, idx: nat,
                     handles: map<nat, ThreadResult>, ghost steps: seq<Step>, ghost s: Run, ghost retry: nat)
    returns (handles': map<nat, ThreadResult>, ghost steps': seq<Step>, ghost s': Run)
    requires Tracks(txs, backing, steps, s, mvcc.Contents(), executed, retry, handles)
    requires s.cursor == idx < |txs| && !executed[idx]
    ensures Tracks(txs, backing, steps', s', mvcc.Contents(), executed, retry, handles') && s'.cursor == idx
    ensures idx in handles' && (idx in handles ==> handles' == handles)
    ensures idx !in handles ==> handles' == handles[idx := RunThread(txs[idx], mvcc.Contents(), backing)]
  {
    handles', steps', s' := handles, steps, s;
    if idx !in handles {
      var result := TakeThreadSnapshot(txs[idx], mvcc, backing);
      SnapshotTracks(txs, backing, steps, s, mvcc.Contents(), executed, retry, handles, idx);
      s', steps' := Next(txs, backing, s, TakeSnapshot(idx)), steps + [TakeSnapshot(idx)];
      handles' := handles[idx := result];
    }
  }

  /** Joining thread `idx`: an execution error, a commit or a deferral. */
  method JoinThread(txs: Txs, backing: Db, mvcc: MvccState, executed: array<bool>, idx: nat, result: ThreadResult)
    returns (error: Option<ExecError>, deferred: bool)
    requires idx < |txs| == executed.Length && !executed[idx]
    modifies mvcc, executed
    ensures match result
            case Failed(e) => error == Some(e) && executed[..] == old(executed[..])
            case Done(_, _, senderAcc, recipientAcc) =>
              error == None && deferred == !Validates(result, txs[idx], old(mvcc.Contents()), backing)
              && (if deferred then mvcc.Contents() == ClearWrites(old(mvcc.Contents()), txs[idx].index)
                                   && executed[..] == old(executed[..])
                  else mvcc.Contents() == CommitTo(old(mvcc.Contents()), txs[idx], senderAcc, recipientAcc)
                       && executed[..] == old(executed[..])[idx := true])
  {
    deferred := false;
    if result.Failed? {
      return Some(result.error), false;
    }
    error := None;
    deferred := FindConflict(result, txs[idx], mvcc, backing);
    if deferred {
      mvcc.ClearTransaction(txs[idx].index);
    } else {
      CommitWrites(txs[idx], result, mvcc);
      executed[idx] := true;
    }
  }

  /** A join does to the loop variables what the machine's step does to its state. */
  lemma {:induction false} JoinTracks(txs: Txs, backing: Db, steps: seq<Step>, s: Run, mvcc: Store,
                                      executed: seq<bool>, retry: nat, handles: map<nat, ThreadResult>,
                                      mvcc': Store, executed': seq<bool>, failure: Option<ExecError>, deferred: bool)
    requires Tracks(txs, backing, steps, s, mvcc, executed, retry, handles)
    requires s.cursor < |txs| && !executed[s.cursor] && s.cursor in handles
    requires match handles[s.cursor]
             case Failed(e) => failure == Some(e)
             case Done(_, _, senderAcc, recipientAcc) =>
               failure == None && deferred == !Validates(handles[s.cursor], txs[s.cursor], mvcc, backing)
               && (if deferred then mvcc' == ClearWrites(mvcc, txs[s.cursor].index) && executed' == executed
                   else mvcc' == CommitTo(mvcc, txs[s.cursor], senderAcc, recipientAcc)
                        && executed' == executed[s.cursor := true])
    ensures Enabled(txs, s, Settle)
    ensures var s' := Next(txs, backing, s, Settle);
            && AfterSteps(txs, backing, steps + [Settle]) == Some(s')
            && (failure.Some? ==> s'.status == Finished(failure))
            && (failure.None? ==> Tracks(txs, backing, steps + [Settle], s', mvcc', executed', retry, handles)
                                  && s'.cursor == s.cursor + 1)
  {
    OneMore(txs, backing, steps, Settle);
  }

  /** One round: spawn the pending threads and join them in list order. */
  method RunRound(txs: Txs, backing: Db, mvcc: MvccState, executed: array<bool>, ghost retry: nat,
                  ghost steps: seq<Step>, ghost s: Run)
    returns (error: Option<ExecError>, reExecute: set<nat>, ghost steps': seq<Step>, ghost s': Run)
    requires executed.Length == |txs|
    requires Tracks(txs, backing, steps, s, mvcc.Contents(), executed[..], retry, map[]) && s.cursor == 0
    modifies mvcc, executed
    ensures error.Some? ==> AfterSteps(txs, backing, steps') == Some(s') && s'.status == Finished(error)
    ensures error.None? ==>
              && s'.cursor == |txs|
              && (exists handles :: Tracks(txs, backing, steps', s', mvcc.Contents(), executed[..], retry, handles))
              && forall i :: i in reExecute ==> i < |txs| && !executed[i]
  {
    var handles: map<nat, ThreadResult> := map[];
    reExecute, steps', s', error := {}, steps, s, None;
    for idx := 0 to |txs|
      invariant Tracks(txs, backing, steps', s', mvcc.Contents(), executed[..], retry, handles) && s'.cursor == idx
      invariant forall i :: i in reExecute ==> i < idx && !executed[i]
    {
      handles, steps', s' := LetThreadsRun(txs, backing, mvcc, executed[..], idx, handles, steps', s', retry);
      if executed[idx] {
        OneMore(txs, backing, steps', Settle);
        s', steps' := Next(txs, backing, s', Settle), steps' + [Settle];
        continue;
      }
      handles, steps', s' := AwaitThread(txs, backing, mvcc, executed[..], idx, handles, steps', s', retry);
      ghost var before, was := mvcc.Contents(), executed[..];
      var failure, deferred := JoinThread(txs, backing, mvcc, executed, idx, handles[idx]);
      JoinTracks(txs, backing, steps', s', before, was, retry, handles, mvcc.Contents(), executed[..], failure,
                 deferred);
      s', steps' := Next(txs, backing, s', Settle), steps' + [Settle];
      if failure.Some? {
        return failure, reExecute, steps', s';
      }
      if deferred {
        reExecute := reExecute + {idx};
      }
    }
  }

  /**
   The optimistic engine. Whatever the threads do, the outcome is that of a schedule of the state
   machine: on an error the database is untouched, on success it holds the finalized store.
   */
  method Execute(txs: Txs, db: WitnessDatabase) returns (r: Result<(), ExecError>, ghost steps: seq<Step>)
    modifies db
    ensures AfterSteps(txs, old(db.Contents()), steps).Some?
    ensures var s := AfterSteps(txs, old(db.Contents()), steps).value;
            match r
            case Ok(_) => s.status == Finished(None) && Finalized(s.store, old(db.Contents()), db.Contents())
            case Err(e) => s.status == Finished(Some(e)) && db.Contents() == old(db.Contents())
  {
    var mvcc := new MvccState();
    var backing := db.Contents();
    var executed := new bool[|txs|](i => false);
    steps := [];
    ghost var s := Initial(txs);
    assert executed[..] == s.executed;
    var retry := 0;
    while true
      invariant retry < MAX_RETRIES && db.Contents() == backing
      invariant fresh(mvcc) && fresh(executed)
      invariant Tracks(txs, backing, steps, s, mvcc.Contents(), executed[..], retry, map[]) && s.cursor == 0
      decreases MAX_RETRIES - retry
    {
      var error, reExecute;
      error, reExecute, steps, s := RunRound(txs, backing, mvcc, executed, retry, steps, s);
      if error.Some? {
        return Err(error.value), steps;
      }
      OneMore(txs, backing, steps, EndRound);
      s, steps := Next(txs, backing, s, EndRound), steps + [EndRound];
      if reExecute == {} && forall i | 0 <= i < executed.Length :: executed[i] {
        break;
      }
      if retry == MAX_RETRIES - 1 {
        return Err(FailedToConverge), steps;
      }
      retry := retry + 1;
    }
    FinalizeAccounts(mvcc.Contents(), db);
    ghost var mid := db.Contents();
    FinalizeStorage(mvcc.Contents(), db);
    assert forall a: Address :: AccountOf(db.Contents(), a) == AccountOf(mid, a);
    assert forall k: Slot :: FinalSlot(s.store, mid, k) == FinalSlot(s.store, backing, k);
    r := Ok(());
  }
}
