/** The wave engine refines one-at-a-time execution. */
module WaveRefinement {
  import opened Lists
  import opened Machine
  import opened State
  import opened Transfers
  import opened Ordering
  import opened Accounting
  import opened Waves
  import opened FirstFit
  import opened WaveEngine

  /** The access list declares the two accounts the transfer itself writes. */
  ghost predicate FootprintDeclared(tx: TxAccessList) {
    tx.sender in tx.writeAddresses && tx.recipient in tx.writeAddresses
  }

  ghost predicate AllDeclared(txs: seq<TxAccessList>) {
    forall t :: t in txs ==> FootprintDeclared(t)
  }

  lemma NoConflictNoInterference(t: TxAccessList, u: TxAccessList)
    requires FootprintDeclared(t) && FootprintDeclared(u) && !Conflicts(t, u)
    ensures !Interferes(t, u)
  {
    var meet := t.writeAddresses * (u.readAddresses + u.writeAddresses);
    assert u.sender in t.writeAddresses ==> u.sender in meet;
    assert u.recipient in t.writeAddresses ==> u.recipient in meet;
  }

  ghost predicate Independent(wave: seq<TxAccessList>) {
    forall i, j :: 0 <= i < j < |wave| ==> !Interferes(wave[i], wave[j])
  }

  /** A transfer of the wave changes an account that a later one of the wave touches. */
  ghost predicate Clashes(wave: seq<TxAccessList>) {
    exists i, j, a: Address :: 0 <= i < j < |wave| && ChangesAccount(wave[i], a) && Touches(wave[j], a)
  }

  lemma IndependentNoClash(wave: seq<TxAccessList>)
    requires Independent(wave)
    ensures !Clashes(wave)
  {
    forall i, j, a: Address | 0 <= i < j < |wave| && ChangesAccount(wave[i], a) ensures !Touches(wave[j], a) {
      assert !Interferes(wave[i], wave[j]);
    }
  }

  /** An account a transfer does not change is the same after it, even if it was stored again. */
  lemma UnchangedStays(tx: TxAccessList, db: Db, a: Address)
    requires Admits(tx, db) && !ChangesAccount(tx, a)
    ensures AccountOf(Apply(tx, db), a) == AccountOf(db, a)
  {
    ApplyLookups(tx, db, a, 0);
  }

  /** The snapshot and the running database agree wherever the rest of the wave will look. */
  ghost predicate SnapshotGood(wave: seq<TxAccessList>, snapshot: Db, db: Db) {
    forall i :: 0 <= i < |wave| ==>
      && AccountOf(snapshot, wave[i].sender) == AccountOf(db, wave[i].sender)
      && AccountOf(snapshot, wave[i].recipient) == AccountOf(db, wave[i].recipient)
  }

  lemma MergeIsApply(tx: TxAccessList, snapshot: Db, db: Db)
    requires SnapshotGood([tx], snapshot, db) && Admits(tx, snapshot)
    ensures Admits(tx, db) && Merge(RunOnSnapshot(tx, snapshot).value, db) == Apply(tx, db)
  {
    assert [tx][0] == tx;
  }

  lemma TailNoClash(wave: seq<TxAccessList>)
    requires wave != [] && !Clashes(wave)
    ensures !Clashes(wave[1..])
  {
    var rest := wave[1..];
    forall i, j, a: Address | 0 <= i < j < |rest| && ChangesAccount(rest[i], a) ensures !Touches(rest[j], a) {
      assert rest[i] == wave[i + 1] && rest[j] == wave[j + 1];
    }
  }

  lemma SnapshotStaysGood(wave: seq<TxAccessList>, snapshot: Db, db: Db)
    requires wave != [] && !Clashes(wave) && SnapshotGood(wave, snapshot, db) && Admits(wave[0], db)
    ensures SnapshotGood(wave[1..], snapshot, Apply(wave[0], db))
  {
    forall i | 0 <= i < |wave[1..]|
      ensures AccountOf(snapshot, wave[1..][i].sender) == AccountOf(Apply(wave[0], db), wave[1..][i].sender)
      ensures AccountOf(snapshot, wave[1..][i].recipient) == AccountOf(Apply(wave[0], db), wave[1..][i].recipient)
    {
      var t := wave[i + 1];
      assert Touches(t, t.sender) && Touches(t, t.recipient);
      UnchangedStays(wave[0], db, t.sender);
      UnchangedStays(wave[0], db, t.recipient);
    }
  }

  /** Running a wave without clashes from a snapshot is running it one transfer at a time, errors included. */
  lemma {:induction false} WaveIsSerial(wave: seq<TxAccessList>, snapshot: Db, db: Db)
    requires !Clashes(wave) && SnapshotGood(wave, snapshot, db)
    ensures Serial(wave, db) == match JoinAll(wave, snapshot)
                                case Err(e) => Err(e)
                                case Ok(results) => Ok(MergeAll(results, db))
  {
    if wave != [] {
      assert AccountOf(snapshot, wave[0].sender) == AccountOf(db, wave[0].sender);
      if Admits(wave[0], db) {
        assert SnapshotGood([wave[0]], snapshot, db) by { assert wave[0] == wave[..1][0]; }
        MergeIsApply(wave[0], snapshot, db);
        SnapshotStaysGood(wave, snapshot, db);
        TailNoClash(wave);
        WaveIsSerial(wave[1..], snapshot, Apply(wave[0], db));
        if JoinAll(wave[1..], snapshot).Ok? {
          var res, more := RunOnSnapshot(wave[0], snapshot).value, JoinAll(wave[1..], snapshot).value;
          assert ([res] + more)[1..] == more;
        }
      }
    }
  }

  ghost predicate AllIndependent(waves: seq<seq<TxAccessList>>) {
    forall w :: 0 <= w < |waves| ==> Independent(waves[w])
  }

  ghost predicate NoneClash(waves: seq<seq<TxAccessList>>) {
    forall w :: 0 <= w < |waves| ==> !Clashes(waves[w])
  }

  lemma WavesIndependent(txs: seq<TxAccessList>)
    requires AllDeclared(txs)
    ensures AllIndependent(WavesOf(txs))
  {
    var waves := WavesOf(txs);
    forall w, i, j | 0 <= w < |waves| && 0 <= i < j < |waves[w]| ensures !Interferes(waves[w][i], waves[w][j]) {
      WaveIsSound(txs, w);
      WavesCover(txs);
      InFlatten(waves, w, waves[w][i]);
      InFlatten(waves, w, waves[w][j]);
      assert waves[w][i] in multiset(txs) && waves[w][j] in multiset(txs);
      ConflictsSymmetric(waves[w][i], waves[w][j]);
      NoConflictNoInterference(waves[w][i], waves[w][j]);
    }
  }

  /** With declared footprints no wave clashes. */
  lemma WavesNoClash(txs: seq<TxAccessList>)
    requires AllDeclared(txs)
    ensures NoneClash(WavesOf(txs))
  {
    WavesIndependent(txs);
    forall w | 0 <= w < |WavesOf(txs)| ensures !Clashes(WavesOf(txs)[w]) {
      IndependentNoClash(WavesOf(txs)[w]);
    }
  }

  lemma FlattenTake<T>(waves: seq<seq<T>>, n: nat)
    requires 0 < n <= |waves|
    ensures Flatten(waves[..n]) == waves[0] + Flatten(waves[1..][..n - 1])
  {
    assert waves[..n][1..] == waves[1..][..n - 1];
  }

  /**
   Wave refinement. An Ok run is serial execution of the waves one after the other; on an error
   the database is serial execution of exactly the merged waves, and serial execution fails with
   the same error inside the next wave.
   */
  lemma {:induction false} WavesAreSerial(waves: seq<seq<TxAccessList>>, db: Db)
    requires NoneClash(waves)
    ensures var o := RunWaves(waves, db);
            && o.merged <= |waves| && Serial(Flatten(waves[..o.merged]), db) == Ok(o.db)
            && match o.error
               case None => o.merged == |waves| && Serial(Flatten(waves), db) == Ok(o.db)
               case Some(e) => o.merged < |waves| && Serial(waves[o.merged], o.db) == Err(e)
                               && Serial(Flatten(waves), db) == Err(e)
  {
    var o := RunWaves(waves, db);
    if waves != [] {
      WaveIsSerial(waves[0], db, db);
      SerialConcat(waves[0], Flatten(waves[1..]), db);
      match JoinAll(waves[0], db)
      case Err(e) =>
        assert waves[..0] == [];
      case Ok(results) =>
        var mid := MergeAll(results, db);
        assert NoneClash(waves[1..]);
        WavesAreSerial(waves[1..], mid);
        FlattenTake(waves, o.merged);
        SerialConcat(waves[0], Flatten(waves[1..][..o.merged - 1]), db);
    }
  }

  // ---------- any order inside a wave ----------

  lemma {:induction false} IndependentAnyOrder(wave: seq<TxAccessList>, order: seq<TxAccessList>, db: Db)
    requires Independent(wave) && DistinctIndices(wave) && DistinctIndices(order)
    requires multiset(order) == multiset(wave)
    ensures SameOutcome(Serial(wave, db), Serial(order, db))
  {
    forall x, y | Precedes(wave, x, y) ensures !Interferes(x, y) {
      var i, j :| 0 <= i < j < |wave| && wave[i] == x && wave[j] == y;
    }
    OrderTheorem(wave, order, db);
  }

  /** The threads of a wave may take effect in any order. */
  lemma {:induction false} AnyOrderInsideWaves(waves: seq<seq<TxAccessList>>, orders: seq<seq<TxAccessList>>, db: Db)
    requires AllIndependent(waves) && |orders| == |waves|
    requires forall w :: 0 <= w < |waves| ==> DistinctIndices(waves[w]) && DistinctIndices(orders[w])
    requires forall w :: 0 <= w < |waves| ==> multiset(orders[w]) == multiset(waves[w])
    ensures SameOutcome(Serial(Flatten(waves), db), Serial(Flatten(orders), db))
  {
    if waves != [] {
      IndependentAnyOrder(waves[0], orders[0], db);
      SerialConcat(waves[0], Flatten(waves[1..]), db);
      SerialConcat(orders[0], Flatten(orders[1..]), db);
      if Serial(waves[0], db).Ok? {
        AnyOrderInsideWaves(waves[1..], orders[1..], Serial(waves[0], db).value);
      }
    }
  }

  // ---------- against index order ----------

  ghost predicate Ascending(txs: seq<TxAccessList>) {
    forall i, j :: 0 <= i < j < |txs| ==> txs[i].index < txs[j].index
  }

  ghost predicate WavesKeepIndexOrder(txs: seq<TxAccessList>) {
    forall x, y :: x in txs && y in txs && x.index < y.index && Conflicts(x, y)
                   ==> Precedes(Flatten(WavesOf(txs)), x, y)
  }

  lemma FlattenedDistinct(txs: seq<TxAccessList>, order: seq<TxAccessList>)
    requires DistinctIndices(txs) && multiset(order) == multiset(txs)
    ensures DistinctIndices(order)
  {
    forall i, j | 0 <= i < j < |order| ensures order[i].index != order[j].index {
      assert order[i] in multiset(txs) && order[j] in multiset(txs);
      if order[i].index == order[j].index {
        SameIndexSameTx(txs, order[i], order[j]);
        CountedTwice(order, i, j);
        OccursOnce(txs, order[i]);
      }
    }
  }

  /** When the waves keep index order on conflicting pairs, the wave engine is serial in index order. */
  lemma {:induction false} WavesComputeIndexOrder(txs: seq<TxAccessList>, sorted: seq<TxAccessList>, db: Db)
    requires DistinctIndices(txs) && AllDeclared(txs) && WavesKeepIndexOrder(txs)
    requires multiset(sorted) == multiset(txs) && Ascending(sorted)
    ensures var o := RunWaves(WavesOf(txs), db);
            if o.error == None then Serial(sorted, db) == Ok(o.db) else Serial(sorted, db).Err?
  {
    var order := Flatten(WavesOf(txs));
    WavesNoClash(txs);
    WavesAreSerial(WavesOf(txs), db);
    WavesCover(txs);
    FlattenedDistinct(txs, order);
    IndexOrderKept(txs, sorted);
    OrderTheorem(sorted, order, db);
  }

  lemma IndexOrderKept(txs: seq<TxAccessList>, sorted: seq<TxAccessList>)
    requires AllDeclared(txs) && WavesKeepIndexOrder(txs) && multiset(sorted) == multiset(txs) && Ascending(sorted)
    ensures KeepsInterferenceOrder(sorted, Flatten(WavesOf(txs)))
  {
    forall x, y | Precedes(sorted, x, y) && Interferes(x, y) ensures Precedes(Flatten(WavesOf(txs)), x, y) {
      var i, j :| 0 <= i < j < |sorted| && sorted[i] == x && sorted[j] == y;
      assert x in multiset(txs) && y in multiset(txs);
      if !Conflicts(x, y) { NoConflictNoInterference(x, y); }
    }
  }

  /**
   Whatever the waves do to the order: if the wave run and serial execution in index order both
   succeed, they agree on every account, and they agree on the whole state exactly when the last
   writer of each slot in wave order is its last writer in index order.
   */
  lemma {:induction false} WavesVersusIndexOrder(txs: seq<TxAccessList>, sorted: seq<TxAccessList>, db: Db)
    requires DistinctIndices(txs) && NoneClash(WavesOf(txs)) && multiset(sorted) == multiset(txs)
    requires RunWaves(WavesOf(txs), db).error == None && Serial(sorted, db).Ok?
    ensures forall a: Address ::
              AccountOf(RunWaves(WavesOf(txs), db).db, a) == AccountOf(Serial(sorted, db).value, a)
    ensures SameState(RunWaves(WavesOf(txs), db).db, Serial(sorted, db).value)
       <==> SameLastWriters(Flatten(WavesOf(txs)), sorted)
  {
    var order := Flatten(WavesOf(txs));
    WavesAreSerial(WavesOf(txs), db);
    WavesCover(txs);
    FlattenedDistinct(txs, order);
    forall a: Address ensures AccountOf(Serial(order, db).value, a) == AccountOf(Serial(sorted, db).value, a) {
      AccountsConfluent(order, sorted, db, a);
    }
    OrdersAgreeIffLastWritersAgree(order, sorted, db);
  }

  // ---------- conservation and nonces ----------

  lemma MergedMints(txs: seq<TxAccessList>, n: nat)
    requires n <= |WavesOf(txs)|
    ensures Minted(Flatten(WavesOf(txs)[..n])) <= Minted(txs)
  {
    var waves := WavesOf(txs);
    assert waves == waves[..n] + waves[n..];
    FlattenConcat(waves[..n], waves[n..]);
    MintedConcat(Flatten(waves[..n]), Flatten(waves[n..]));
    WavesCover(txs);
    MintedPermutation(Flatten(waves), txs);
  }

  /**
   Conservation for the wave engine, whether it succeeds or stops at an error: the total grows by the
   self-transfers of the merged waves only, and no credit wraps.
   */
  lemma {:induction false} WavesConserve(txs: seq<TxAccessList>, db: Db)
    requires NoneClash(WavesOf(txs)) && TotalBalance(db.accounts) + Minted(txs) < TWO_256
    ensures var o := RunWaves(WavesOf(txs), db);
            && o.merged <= |WavesOf(txs)|
            && var done := Flatten(WavesOf(txs)[..o.merged]);
               && TotalBalance(o.db.accounts) == TotalBalance(db.accounts) + Minted(done)
               && forall a: Address ::
                    AccountOf(o.db, a).balance + Total(Debits, done, a)
                    == AccountOf(db, a).balance + Total(Credits, done, a)
  {
    WavesAreSerial(WavesOf(txs), db);
    var n := RunWaves(WavesOf(txs), db).merged;
    MergedMints(txs, n);
    SerialConserves(Flatten(WavesOf(txs)[..n]), db);
  }

  lemma SerialOkIsOkRun(txs: seq<TxAccessList>, order: seq<TxAccessList>, db: Db)
    requires NoneClash(WavesOf(txs)) && order == Flatten(WavesOf(txs)) && Serial(order, db).Ok?
    ensures RunWaves(WavesOf(txs), db).error == None && RunWaves(WavesOf(txs), db).db == Serial(order, db).value
  {
    WavesAreSerial(WavesOf(txs), db);
  }

  lemma {:induction false} OkRunIsSerial(txs: seq<TxAccessList>, db: Db)
    requires NoneClash(WavesOf(txs)) && RunWaves(WavesOf(txs), db).error == None
    ensures Serial(Flatten(WavesOf(txs)), db) == Ok(RunWaves(WavesOf(txs), db).db)
    ensures multiset(Flatten(WavesOf(txs))) == multiset(txs) && |Flatten(WavesOf(txs))| == |txs|
  {
    WavesAreSerial(WavesOf(txs), db);
    WavesCover(txs);
    assert |Flatten(WavesOf(txs))| == |multiset(Flatten(WavesOf(txs)))| && |txs| == |multiset(txs)|;
  }

  /** In wave order each transfer carries the nonce its sender has reached. */
  lemma WaveNonces(txs: seq<TxAccessList>, db: Db, k: nat)
    requires NoneClash(WavesOf(txs)) && RunWaves(WavesOf(txs), db).error == None && k < |txs|
    ensures |Flatten(WavesOf(txs))| == |txs|
    ensures var t := Flatten(WavesOf(txs))[k];
            t.nonce == Advanced(AccountOf(db, t.sender).nonce, Total(Sends, Flatten(WavesOf(txs))[..k], t.sender))
  {
    OkRunIsSerial(txs, db);
    NonceDiscipline(Flatten(WavesOf(txs)), db, k);
  }

  /** Every account ends at its first nonce plus the number of transfers it sent to others. */
  lemma FinalNonces(txs: seq<TxAccessList>, db: Db, a: Address)
    requires NoneClash(WavesOf(txs)) && RunWaves(WavesOf(txs), db).error == None
    ensures AccountOf(RunWaves(WavesOf(txs), db).db, a).nonce
            == Advanced(AccountOf(db, a).nonce, Total(Sends, txs, a))
  {
    OkRunIsSerial(txs, db);
    TotalPermutation(Sends, Flatten(WavesOf(txs)), txs, a);
    NonceAfterRun(Flatten(WavesOf(txs)), db, a, Total(Sends, txs, a));
  }

  lemma NonceAfterRun(order: seq<TxAccessList>, db: Db, a: Address, sends: nat)
    requires Serial(order, db).Ok? && sends == Total(Sends, order, a)
    ensures AccountOf(Serial(order, db).value, a).nonce == Advanced(AccountOf(db, a).nonce, sends)
  {
    SerialPosts(order, db, a);
  }
}
