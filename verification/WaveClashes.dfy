/** Exactly when running waves from snapshots is serial execution, whatever the access lists declare. */
module WaveClashes {
  import opened Lists
  import opened Machine
  import opened State
  import opened Transfers
  import opened Ordering
  import opened Accounting
  import opened Waves
  import opened FirstFit
  import opened WaveEngine
  import opened WaveRefinement

  ghost predicate TouchedBy(wave: seq<TxAccessList>, a: Address) {
    exists i :: 0 <= i < |wave| && Touches(wave[i], a)
  }

  lemma TouchedByCons(wave: seq<TxAccessList>, a: Address)
    requires wave != []
    ensures TouchedBy(wave, a) <==> Touches(wave[0], a) || TouchedBy(wave[1..], a)
  {
    if i :| 0 <= i < |wave| && Touches(wave[i], a) {
      if i > 0 { assert wave[1..][i - 1] == wave[i]; }
    }
    if i :| 0 <= i < |wave[1..]| && Touches(wave[1..][i], a) {
      assert wave[i + 1] == wave[1..][i];
    }
  }

  // ---------- what survives the merge ----------

  /** The contribution that stays in account `a` when the wave is merged: that of the last to touch it. */
  ghost function Kept(q: Quantity, wave: seq<TxAccessList>, a: Address): nat {
    if wave == [] then 0
    else if TouchedBy(wave[1..], a) then Kept(q, wave[1..], a)
    else Amount(q, wave[0], a)
  }

  /** The contributions that a later copy of the account overwrites. */
  ghost function Dropped(q: Quantity, wave: seq<TxAccessList>, a: Address): nat {
    if wave == [] then 0
    else Dropped(q, wave[1..], a) + if TouchedBy(wave[1..], a) then Amount(q, wave[0], a) else 0
  }

  lemma {:induction false} Untouched(q: Quantity, wave: seq<TxAccessList>, a: Address)
    requires !TouchedBy(wave, a)
    ensures Kept(q, wave, a) == 0 && Dropped(q, wave, a) == 0
  {
    if wave != [] {
      TouchedByCons(wave, a);
      Untouched(q, wave[1..], a);
    }
  }

  lemma {:induction false} KeptOrDropped(q: Quantity, wave: seq<TxAccessList>, a: Address)
    ensures Kept(q, wave, a) + Dropped(q, wave, a) == Total(q, wave, a)
  {
    if wave != [] {
      KeptOrDropped(q, wave[1..], a);
      if !TouchedBy(wave[1..], a) { Untouched(q, wave[1..], a); }
    }
  }

  lemma {:induction false} DroppedSends(wave: seq<TxAccessList>, a: Address)
    ensures Dropped(Sends, wave, a) <= if wave == [] then 0 else |wave| - 1
    ensures Dropped(Sends, wave, a) == 0 ==> Dropped(Debits, wave, a) == 0
  {
    if wave != [] { DroppedSends(wave[1..], a); }
  }

  /** Something that counts is overwritten in some account exactly when the wave clashes. */
  lemma {:induction false} ClashDrops(wave: seq<TxAccessList>, i: nat, j: nat, a: Address)
    requires i < j < |wave| && ChangesAccount(wave[i], a) && Touches(wave[j], a)
    ensures Dropped(Sends, wave, a) > 0 || Dropped(Credits, wave, a) > 0
  {
    if i == 0 {
      assert wave[1..][j - 1] == wave[j];
    } else {
      ClashDrops(wave[1..], i - 1, j - 1, a);
    }
  }

  // ---------- one merged wave ----------

  lemma MergedAccount(tx: TxAccessList, snapshot: Db, db: Db, a: Address)
    requires Admits(tx, snapshot)
    ensures AccountOf(Merge(RunOnSnapshot(tx, snapshot).value, db), a) ==
            if Touches(tx, a) then Written(tx, a, AccountOf(snapshot, a)) else AccountOf(db, a)
  {
  }

  /** After a merge an account is the snapshot's with what is kept, or the running database's. */
  lemma {:induction false} MergePosts(wave: seq<TxAccessList>, snapshot: Db, db: Db, a: Address)
    requires JoinAll(wave, snapshot).Ok?
    ensures var acc := AccountOf(MergeAll(JoinAll(wave, snapshot).value, db), a);
            if TouchedBy(wave, a)
            then Posted(AccountOf(snapshot, a), acc,
                        Kept(Sends, wave, a), Kept(Debits, wave, a), Kept(Credits, wave, a))
            else acc == AccountOf(db, a)
  {
    if wave != [] {
      var res, more := RunOnSnapshot(wave[0], snapshot).value, JoinAll(wave[1..], snapshot).value;
      assert ([res] + more)[1..] == more;
      TouchedByCons(wave, a);
      MergePosts(wave[1..], snapshot, Merge(res, db), a);
      if !TouchedBy(wave[1..], a) {
        MergedAccount(wave[0], snapshot, db, a);
        if Touches(wave[0], a) { WrittenPosted(wave[0], a, AccountOf(snapshot, a)); }
      }
    }
  }

  lemma WavePosts(wave: seq<TxAccessList>, db: Db, a: Address)
    requires JoinAll(wave, db).Ok?
    ensures Posted(AccountOf(db, a), AccountOf(MergeAll(JoinAll(wave, db).value, db), a),
                   Kept(Sends, wave, a), Kept(Debits, wave, a), Kept(Credits, wave, a))
  {
    MergePosts(wave, db, db, a);
    if !TouchedBy(wave, a) {
      Untouched(Sends, wave, a);
      Untouched(Debits, wave, a);
      Untouched(Credits, wave, a);
    }
  }

  // ---------- a whole run ----------

  ghost function KeptAll(q: Quantity, waves: seq<seq<TxAccessList>>, a: Address): nat {
    if waves == [] then 0 else Kept(q, waves[0], a) + KeptAll(q, waves[1..], a)
  }

  ghost function DroppedAll(q: Quantity, waves: seq<seq<TxAccessList>>, a: Address): nat {
    if waves == [] then 0 else Dropped(q, waves[0], a) + DroppedAll(q, waves[1..], a)
  }

  lemma {:induction false} RunPosts(waves: seq<seq<TxAccessList>>, db: Db, a: Address)
    requires RunWaves(waves, db).error == None
    ensures Posted(AccountOf(db, a), AccountOf(RunWaves(waves, db).db, a),
                   KeptAll(Sends, waves, a), KeptAll(Debits, waves, a), KeptAll(Credits, waves, a))
  {
    if waves != [] {
      var mid := MergeAll(JoinAll(waves[0], db).value, db);
      WavePosts(waves[0], db, a);
      RunPosts(waves[1..], mid, a);
      PostedCompose(AccountOf(db, a), AccountOf(mid, a), AccountOf(RunWaves(waves, db).db, a),
                    Kept(Sends, waves[0], a), Kept(Debits, waves[0], a), Kept(Credits, waves[0], a),
                    KeptAll(Sends, waves[1..], a), KeptAll(Debits, waves[1..], a), KeptAll(Credits, waves[1..], a));
    }
  }

  lemma {:induction false} AllKeptOrDropped(q: Quantity, waves: seq<seq<TxAccessList>>, a: Address)
    ensures KeptAll(q, waves, a) + DroppedAll(q, waves, a) == Total(q, Flatten(waves), a)
  {
    if waves != [] {
      AllKeptOrDropped(q, waves[1..], a);
      KeptOrDropped(q, waves[0], a);
      TotalConcat(q, waves[0], Flatten(waves[1..]), a);
    }
  }

  lemma {:induction false} AllDroppedSends(waves: seq<seq<TxAccessList>>, a: Address)
    ensures DroppedAll(Sends, waves, a) <= if Flatten(waves) == [] then 0 else |Flatten(waves)| - 1
    ensures DroppedAll(Sends, waves, a) == 0 ==> DroppedAll(Debits, waves, a) == 0
  {
    if waves != [] {
      DroppedSends(waves[0], a);
      AllDroppedSends(waves[1..], a);
    }
  }

  lemma {:induction false} SomeDropped(q: Quantity, waves: seq<seq<TxAccessList>>, w: nat, a: Address)
    requires w < |waves|
    ensures DroppedAll(q, waves, a) >= Dropped(q, waves[w], a)
  {
    if w > 0 { SomeDropped(q, waves[1..], w - 1, a); }
  }

  lemma {:induction false} CreditsWithinSum(txs: seq<TxAccessList>, a: Address)
    ensures Total(Credits, txs, a) <= SumOfValues(txs)
  {
    if txs != [] {
      CreditsWithinSum(txs[1..], a);
      SumRemove(txs, 0);
      assert RemoveAt(txs, 0) == txs[1..];
    }
  }

  /** Account `a` of an Ok run carries everything the waves contribute to it. */
  ghost predicate FullLedger(waves: seq<seq<TxAccessList>>, db: Db, a: Address) {
    Posted(AccountOf(db, a), AccountOf(RunWaves(waves, db).db, a),
           Total(Sends, Flatten(waves), a), Total(Debits, Flatten(waves), a), Total(Credits, Flatten(waves), a))
  }

  /** Then nothing that counts was overwritten. */
  lemma NothingDropped(waves: seq<seq<TxAccessList>>, db: Db, a: Address)
    requires RunWaves(waves, db).error == None && |Flatten(waves)| <= TWO_64 && SumOfValues(Flatten(waves)) < TWO_256
    requires FullLedger(waves, db, a)
    ensures DroppedAll(Sends, waves, a) == 0 && DroppedAll(Credits, waves, a) == 0
  {
    RunPosts(waves, db, a);
    AllKeptOrDropped(Sends, waves, a);
    AllKeptOrDropped(Debits, waves, a);
    AllKeptOrDropped(Credits, waves, a);
    AllDroppedSends(waves, a);
    CreditsWithinSum(Flatten(waves), a);
    LedgersAgree(AccountOf(db, a), AccountOf(RunWaves(waves, db).db, a),
                 KeptAll(Sends, waves, a), KeptAll(Debits, waves, a), KeptAll(Credits, waves, a),
                 DroppedAll(Sends, waves, a), DroppedAll(Debits, waves, a), DroppedAll(Credits, waves, a),
                 Total(Sends, Flatten(waves), a), Total(Debits, Flatten(waves), a), Total(Credits, Flatten(waves), a));
  }

  /** An Ok run whose accounts are all complete had no clash. */
  lemma FullLedgerNoClash(waves: seq<seq<TxAccessList>>, db: Db)
    requires RunWaves(waves, db).error == None && |Flatten(waves)| <= TWO_64 && SumOfValues(Flatten(waves)) < TWO_256
    requires forall a: Address :: FullLedger(waves, db, a)
    ensures NoneClash(waves)
  {
    if !NoneClash(waves) {
      var w :| 0 <= w < |waves| && Clashes(waves[w]);
      var i, j, a: Address :| 0 <= i < j < |waves[w]| && ChangesAccount(waves[w][i], a) && Touches(waves[w][j], a);
      ClashDrops(waves[w], i, j, a);
      SomeDropped(Sends, waves, w, a);
      SomeDropped(Credits, waves, w, a);
      NothingDropped(waves, db, a);
    }
  }

  /** The accounts of a run are complete when they are those of any serial order of its transfers. */
  lemma SerialAccountsAreFull(waves: seq<seq<TxAccessList>>, order: seq<TxAccessList>, db: Db, a: Address)
    requires multiset(order) == multiset(Flatten(waves)) && Serial(order, db).Ok?
    requires AccountOf(RunWaves(waves, db).db, a) == AccountOf(Serial(order, db).value, a)
    ensures FullLedger(waves, db, a)
  {
    SerialPosts(order, db, a);
    TotalPermutation(Sends, order, Flatten(waves), a);
    TotalPermutation(Debits, order, Flatten(waves), a);
    TotalPermutation(Credits, order, Flatten(waves), a);
  }

  /** So an Ok run that ends where some serial order of its transfers ends had no clash. */
  lemma {:induction false} SerialStateNoClash(waves: seq<seq<TxAccessList>>, order: seq<TxAccessList>, db: Db)
    requires RunWaves(waves, db).error == None && |Flatten(waves)| <= TWO_64 && SumOfValues(Flatten(waves)) < TWO_256
    requires multiset(order) == multiset(Flatten(waves)) && Serial(order, db).Ok?
    requires SameState(RunWaves(waves, db).db, Serial(order, db).value)
    ensures NoneClash(waves)
  {
    forall a: Address ensures FullLedger(waves, db, a) {
      SerialAccountsAreFull(waves, order, db, a);
    }
    FullLedgerNoClash(waves, db);
  }

  /** Serial execution of the concatenated waves succeeds and ends where the run did. */
  ghost predicate RanSerially(waves: seq<seq<TxAccessList>>, db: Db) {
    && Serial(Flatten(waves), db).Ok?
    && SameState(Serial(Flatten(waves), db).value, RunWaves(waves, db).db)
  }

  /** An Ok run of any waves is serial execution, wave after wave, exactly when no wave clashes. */
  lemma RanSeriallyIff(waves: seq<seq<TxAccessList>>, db: Db)
    requires RunWaves(waves, db).error == None && |Flatten(waves)| <= TWO_64 && SumOfValues(Flatten(waves)) < TWO_256
    ensures RanSerially(waves, db) <==> NoneClash(waves)
  {
    if NoneClash(waves) {
      WavesAreSerial(waves, db);
    } else if RanSerially(waves, db) {
      SerialStateNoClash(waves, Flatten(waves), db);
    }
  }

  lemma BlockSize(txs: seq<TxAccessList>)
    requires DistinctIndices(txs) && SumOfValues(txs) < TWO_256
    ensures |Flatten(WavesOf(txs))| <= TWO_64 && SumOfValues(Flatten(WavesOf(txs))) < TWO_256
    ensures multiset(Flatten(WavesOf(txs))) == multiset(txs)
  {
    WavesCover(txs);
    SumPermutation(Flatten(WavesOf(txs)), txs);
    assert |Flatten(WavesOf(txs))| == |multiset(Flatten(WavesOf(txs)))| == |multiset(txs)| == |txs|;
    BlockLength(txs);
  }

  /** The same of a block: an Ok wave run is serial in wave order exactly when none of its waves clashes. */
  lemma WaveRunSerialIff(txs: seq<TxAccessList>, db: Db)
    requires DistinctIndices(txs) && SumOfValues(txs) < TWO_256 && RunWaves(WavesOf(txs), db).error == None
    ensures RanSerially(WavesOf(txs), db) <==> NoneClash(WavesOf(txs))
  {
    BlockSize(txs);
    RanSeriallyIff(WavesOf(txs), db);
  }

  /** A block's wave run succeeds and is serial in wave order exactly when no wave clashes and that order succeeds. */
  lemma {:induction false} WaveRunOkAndSerialIff(txs: seq<TxAccessList>, db: Db)
    requires DistinctIndices(txs) && SumOfValues(txs) < TWO_256
    ensures RunWaves(WavesOf(txs), db).error == None && RanSerially(WavesOf(txs), db)
       <==> NoneClash(WavesOf(txs)) && Serial(Flatten(WavesOf(txs)), db).Ok?
  {
    if RunWaves(WavesOf(txs), db).error == None { WaveRunSerialIff(txs, db); }
    if NoneClash(WavesOf(txs)) { WavesAreSerial(WavesOf(txs), db); }
  }

  /** One wave: merging it from its snapshot is running it serially exactly when it does not clash. */
  lemma WaveSerialIff(wave: seq<TxAccessList>, db: Db)
    requires JoinAll(wave, db).Ok? && |wave| <= TWO_64 && SumOfValues(wave) < TWO_256
    ensures Serial(wave, db).Ok? && SameState(Serial(wave, db).value, MergeAll(JoinAll(wave, db).value, db))
       <==> !Clashes(wave)
  {
    assert [wave][0] == wave && [wave][1..] == [];
    assert Flatten([wave]) == wave + Flatten([]) == wave;
    RanSeriallyIff([wave], db);
    assert NoneClash([wave]) <==> !Clashes(wave);
  }
}
