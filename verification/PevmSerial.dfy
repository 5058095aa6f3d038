/** Serializability of the optimistic engine, as facts about the commit log. */
module PevmSerial {
  import opened Machine
  import opened State
  import opened Transfers
  import opened Ordering
  import opened Accounting
  import opened CommitLog
  import opened Pevm
  import opened WaveRefinement

  // ---------- late commits ----------

  /** A lower index committed after a higher one that had already read and written the same account. */
  predicate LateTouch(log: Log, p: nat, q: nat, a: Address) {
    p < q < |log| && log[q].index < log[p].index && Touches(log[p], a) && Touches(log[q], a)
  }

  ghost predicate LostUpdate(log: Log) {
    exists p: nat, q: nat, a: Address :: LateTouch(log, p, q, a) && ChangesAccount(log[q], a)
  }

  // ---------- without lost updates the log reads as serial execution ----------

  /** A reader that sees a version below a bound sees the same with the bound as its index. */
  lemma {:induction false} ReaderBound(log: Log, low: nat, high: nat, a: Address, db: Db)
    requires low <= high && Visible(log, high, a, db).writer < low
    ensures Visible(log, low, a, db) == Visible(log, high, a, db)
  {
    if log != [] {
      VersionsOnlyRise(log, |log| - 1, high, a, db);
      ReaderBound(log[..|log| - 1], low, high, a, db);
    }
  }

  lemma CreditNothing(t: TxAccessList, acc: AccountWitness)
    requires t.value == 0
    ensures Credited(t, acc) == acc
  {
  }

  /** What a transfer read when it committed is still there to read at the end. */
  lemma {:induction false} ReadsStayValid(log: Log, p: nat, n: nat, a: Address, db: Db)
    requires p < n <= |log| && Touches(log[p], a) && !LostUpdate(log)
    ensures Visible(log[..n], log[p].index, a, db).acc == Visible(log[..p], log[p].index, a, db).acc
    decreases n
  {
    var t, x, rest := log[p], log[n - 1], log[..n - 1];
    assert log[..n][..n - 1] == rest;
    if n - 1 > p {
      ReadsStayValid(log, p, n - 1, a, db);
      var seen := Visible(rest, t.index, a, db);
      if Touches(x, a) && seen.writer < x.index < t.index {
        assert LateTouch(log, p, n - 1, a);
        ReaderBound(rest, x.index, t.index, a, db);
        CreditNothing(x, seen.acc);
      }
    }
  }

  /** A version's value, from what its writer saw. */
  lemma VersionValue(log: Log, p: nat, reader: nat, a: Address, db: Db)
    requires DistinctIndices(log) && p < |log| && Touches(log[p], a)
    requires Visible(log, reader, a, db).writer == log[p].index
    ensures Visible(log, reader, a, db).acc == Written(log[p], a, Visible(log[..p], log[p].index, a, db).acc)
  {
    var upTo := log[..p + 1];
    assert upTo[..p] == log[..p];
    VisibleIsGreatest(log, reader, a, db);
    VersionsOnlyRise(log, p, reader, a, db);
    VersionsOnlyRise(log, p + 1, reader, a, db);
    VisibleIsGreatest(log[..p], reader, a, db);
  }

  /** The first index the serial prefix of length `m` has not reached. */
  function Bound(sorted: seq<TxAccessList>, m: nat): nat
    requires m <= |sorted|
  {
    if m < |sorted| then sorted[m].index else TWO_64
  }

  /** The log, read at the bound, is the state of the serial prefix. */
  ghost predicate LogIsState(log: Log, bound: nat, db: Db, d: Db) {
    forall a: Address :: AccountOf(d, a) == Visible(log, bound, a, db).acc
  }

  lemma NothingBetween(log: Log, sorted: seq<TxAccessList>, m: nat, p: nat)
    requires Ascending(sorted) && m < |sorted| && multiset(sorted) == multiset(log) && p < |log|
    ensures log[p].index < Bound(sorted, m + 1) ==> log[p].index < sorted[m].index || log[p] == sorted[m]
  {
    assert log[p] in multiset(sorted);
    var j :| 0 <= j < |sorted| && sorted[j] == log[p];
  }

  lemma NextState(log: Log, sorted: seq<TxAccessList>, m: nat, p: nat, db: Db, d: Db, a: Address)
    requires DistinctIndices(log) && Ascending(sorted) && multiset(sorted) == multiset(log)
    requires m < |sorted| && p < |log| && log[p] == sorted[m] && !LostUpdate(log)
    requires LogIsState(log, sorted[m].index, db, d) && Admits(sorted[m], d)
    ensures AccountOf(Apply(sorted[m], d), a) == Visible(log, Bound(sorted, m + 1), a, db).acc
  {
    var t, bound := sorted[m], Bound(sorted, m + 1);
    ApplyLookups(t, d, a, 0);
    VisibleIsGreatest(log, bound, a, db);
    var w := Visible(log, bound, a, db).writer;
    if w != -1 {
      var j :| 0 <= j < |log| && log[j].index == w && Touches(log[j], a);
      NothingBetween(log, sorted, m, j);
    }
    assert t.index < bound;
    if Touches(t, a) {
      assert w == t.index;
      VersionValue(log, p, bound, a, db);
      ReadsStayValid(log, p, |log|, a, db);
      assert log[..|log|] == log;
    } else {
      ReaderBound(log, t.index, bound, a, db);
    }
  }

  lemma PositionOf(log: Log, sorted: seq<TxAccessList>, m: nat) returns (p: nat)
    requires multiset(sorted) == multiset(log) && m < |sorted|
    ensures p < |log| && log[p] == sorted[m]
  {
    assert sorted[m] in multiset(log);
    p :| 0 <= p < |log| && log[p] == sorted[m];
  }

  lemma {:induction false} LogIsSerial(log: Log, sorted: seq<TxAccessList>, m: nat, db: Db)
    requires DistinctIndices(log) && Ascending(sorted) && multiset(sorted) == multiset(log)
    requires LogAdmitted(log, db) && !LostUpdate(log) && m <= |sorted|
    ensures Serial(sorted[..m], db).Ok?
    ensures LogIsState(log, Bound(sorted, m), db, Serial(sorted[..m], db).value)
  {
    if m == 0 {
      forall a: Address ensures AccountOf(db, a) == Visible(log, Bound(sorted, 0), a, db).acc {
        NothingBelow(log, sorted, a, db);
      }
    } else {
      LogIsSerial(log, sorted, m - 1, db);
      var t, d := sorted[m - 1], Serial(sorted[..m - 1], db).value;
      var p := PositionOf(log, sorted, m - 1);
      ReadsStayValid(log, p, |log|, t.sender, db);
      assert log[..|log|] == log;
      assert AccountOf(d, t.sender) == Visible(log, t.index, t.sender, db).acc;
      assert Admits(t, d);
      assert sorted[..m] == sorted[..m - 1] + [t];
      SerialConcat(sorted[..m - 1], [t], db);
      SerialOne(t, d);
      forall a: Address ensures AccountOf(Apply(t, d), a) == Visible(log, Bound(sorted, m), a, db).acc {
        NextState(log, sorted, m - 1, p, db, d, a);
      }
    }
  }

  lemma SerialOne(t: TxAccessList, d: Db)
    requires Admits(t, d)
    ensures Serial([t], d) == Ok(Apply(t, d))
  {
    assert [t][1..] == [];
  }

  lemma NothingBelow(log: Log, sorted: seq<TxAccessList>, a: Address, db: Db)
    requires Ascending(sorted) && multiset(sorted) == multiset(log)
    ensures Visible(log, Bound(sorted, 0), a, db).acc == AccountOf(db, a)
  {
    var bound := Bound(sorted, 0);
    VisibleIsGreatest(log, bound, a, db);
    forall j | 0 <= j < |log| ensures log[j].index >= bound {
      assert log[j] in multiset(sorted);
      var i :| 0 <= i < |sorted| && sorted[i] == log[j];
    }
  }

  // ---------- lost updates show ----------

  /** The part of a quantity that the account seen by a reader includes. */
  ghost function Included(q: Quantity, log: Log, reader: nat, a: Address, db: Db): nat
    decreases |log|
  {
    if log == [] then 0
    else
      var rest, t := log[..|log| - 1], log[|log| - 1];
      if Touches(t, a) && Visible(rest, reader, a, db).writer < t.index < reader
      then Included(q, rest, t.index, a, db) + Amount(q, t, a)
      else Included(q, rest, reader, a, db)
  }

  /** The part below the reader that it leaves out: writers that committed under a higher version. */
  ghost function Missed(q: Quantity, log: Log, reader: nat, a: Address, db: Db): nat
    decreases |log|
  {
    if log == [] then 0
    else
      var rest, t := log[..|log| - 1], log[|log| - 1];
      if !Touches(t, a) || t.index >= reader then Missed(q, rest, reader, a, db)
      else if Visible(rest, reader, a, db).writer < t.index then Missed(q, rest, t.index, a, db)
      else Missed(q, rest, reader, a, db) + Amount(q, t, a)
  }

  function Below(q: Quantity, log: Log, reader: nat, a: Address): nat {
    if log == [] then 0
    else Below(q, log[..|log| - 1], reader, a)
         + (if log[|log| - 1].index < reader then Amount(q, log[|log| - 1], a) else 0)
  }

  lemma {:induction false} BelowBound(q: Quantity, log: Log, low: nat, high: nat, a: Address)
    requires low <= high
    requires forall p :: 0 <= p < |log| && Touches(log[p], a) ==> log[p].index < low || log[p].index >= high
    ensures Below(q, log, low, a) == Below(q, log, high, a)
  {
    if log != [] {
      BelowBound(q, log[..|log| - 1], low, high, a);
    }
  }

  lemma {:induction false} IncludedOrMissed(q: Quantity, log: Log, reader: nat, a: Address, db: Db)
    requires DistinctIndices(log)
    ensures Included(q, log, reader, a, db) + Missed(q, log, reader, a, db) == Below(q, log, reader, a)
    decreases |log|
  {
    if log != [] {
      var rest, t := log[..|log| - 1], log[|log| - 1];
      IncludedOrMissed(q, rest, reader, a, db);
      IncludedOrMissed(q, rest, t.index, a, db);
      var w := Visible(rest, reader, a, db).writer;
      VisibleIsGreatest(rest, reader, a, db);
      if Touches(t, a) && w < t.index < reader {
        BelowBound(q, rest, t.index, reader, a);
      }
    }
  }

  lemma {:induction false} BelowAll(q: Quantity, log: Log, a: Address)
    ensures Below(q, log, TWO_64, a) == Total(q, log, a)
  {
    if log != [] {
      var rest, t := log[..|log| - 1], log[|log| - 1];
      BelowAll(q, rest, a);
      assert log == rest + [t];
      TotalConcat(q, rest, [t], a);
      assert [t][1..] == [];
    }
  }

  /** The account a reader sees is the ledger of what it includes. */
  ghost predicate SeenPosts(log: Log, reader: nat, a: Address, db: Db) {
    Posted(AccountOf(db, a), Visible(log, reader, a, db).acc, Included(Sends, log, reader, a, db),
           Included(Debits, log, reader, a, db), Included(Credits, log, reader, a, db))
  }

  lemma VisibleCommit(q: Quantity, rest: Log, t: TxAccessList, reader: nat, a: Address, db: Db)
    requires Touches(t, a) && Visible(rest, reader, a, db).writer < t.index < reader
    ensures Visible(rest + [t], reader, a, db).acc == Written(t, a, Visible(rest, t.index, a, db).acc)
    ensures Included(q, rest + [t], reader, a, db) == Included(q, rest, t.index, a, db) + Amount(q, t, a)
  {
    assert (rest + [t])[..|rest|] == rest;
  }

  lemma WrittenPostsOn(x: AccountWitness, before: AccountWitness, t: TxAccessList, a: Address, s: nat, d: nat, c: nat)
    requires Touches(t, a) && Posted(x, before, s, d, c)
    requires a == t.sender ==> Rejection(t, before).None?
    ensures Posted(x, Written(t, a, before), s + Amount(Sends, t, a), d + Amount(Debits, t, a),
                   c + Amount(Credits, t, a))
  {
    WrittenPosted(t, a, before);
    PostedCompose(x, before, Written(t, a, before), s, d, c, Amount(Sends, t, a), Amount(Debits, t, a),
            Amount(Credits, t, a));
  }

  lemma {:induction false} CommitPosts(rest: Log, t: TxAccessList, reader: nat, a: Address, db: Db)
    requires Touches(t, a) && Visible(rest, reader, a, db).writer < t.index < reader
    requires SeenPosts(rest, t.index, a, db)
    requires Rejection(t, Visible(rest, t.index, t.sender, db).acc).None?
    ensures SeenPosts(rest + [t], reader, a, db)
  {
    VisibleCommit(Sends, rest, t, reader, a, db);
    VisibleCommit(Debits, rest, t, reader, a, db);
    VisibleCommit(Credits, rest, t, reader, a, db);
    WrittenPostsOn(AccountOf(db, a), Visible(rest, t.index, a, db).acc, t, a, Included(Sends, rest, t.index, a, db),
                   Included(Debits, rest, t.index, a, db), Included(Credits, rest, t.index, a, db));
  }

  lemma {:induction false} VisiblePosts(log: Log, reader: nat, a: Address, db: Db)
    requires LogAdmitted(log, db)
    ensures SeenPosts(log, reader, a, db)
    decreases |log|
  {
    if log != [] {
      var rest, t := log[..|log| - 1], log[|log| - 1];
      assert log == rest + [t];
      PrefixAdmitted(log, db);
      if Touches(t, a) && Visible(rest, reader, a, db).writer < t.index < reader {
        VisiblePosts(rest, t.index, a, db);
        CommitPosts(rest, t, reader, a, db);
      } else {
        VisiblePosts(rest, reader, a, db);
      }
    }
  }

  lemma {:induction false} PrefixAdmitted(log: Log, db: Db)
    requires LogAdmitted(log, db) && log != []
    ensures LogAdmitted(log[..|log| - 1], db)
    ensures var t := log[|log| - 1]; Rejection(t, Visible(log[..|log| - 1], t.index, t.sender, db).acc).None?
  {
    var rest := log[..|log| - 1];
    forall p | 0 <= p < |rest|
      ensures Rejection(rest[p], Visible(rest[..p], rest[p].index, rest[p].sender, db).acc).None?
    {
      assert rest[..p] == log[..p] && rest[p] == log[p];
    }
  }

  /** A late writer is missed by every reader above the version it went under. */
  lemma {:induction false} LateIsMissed(z: Quantity, log: Log, p: nat, q: nat, reader: nat, a: Address, db: Db)
    requires LateTouch(log, p, q, a) && log[p].index < reader
    ensures Missed(z, log, reader, a, db) >= Amount(z, log[q], a)
    decreases |log|
  {
    var rest, t := log[..|log| - 1], log[|log| - 1];
    VisibleIsGreatest(rest, reader, a, db);
    assert rest[p] == log[p];
    var w := Visible(rest, reader, a, db).writer;
    assert w >= log[p].index;
    if q < |rest| {
      assert rest[q] == log[q];
      if Touches(t, a) && w < t.index < reader {
        LateIsMissed(z, rest, p, q, t.index, a, db);
      } else {
        LateIsMissed(z, rest, p, q, reader, a, db);
      }
    }
  }

  lemma {:induction false} MissedDebits(log: Log, reader: nat, a: Address, db: Db)
    requires Missed(Sends, log, reader, a, db) == 0
    ensures Missed(Debits, log, reader, a, db) == 0
    decreases |log|
  {
    if log != [] {
      var rest, t := log[..|log| - 1], log[|log| - 1];
      if Touches(t, a) && Visible(rest, reader, a, db).writer < t.index < reader {
        MissedDebits(rest, t.index, a, db);
      } else {
        MissedDebits(rest, reader, a, db);
      }
    }
  }

  lemma {:induction false} MissedSendsFew(log: Log, reader: nat, a: Address, db: Db)
    ensures Missed(Sends, log, reader, a, db) <= if log == [] then 0 else |log| - 1
    decreases |log|
  {
    if log != [] {
      var rest, t := log[..|log| - 1], log[|log| - 1];
      if Touches(t, a) && Visible(rest, reader, a, db).writer < t.index < reader {
        MissedSendsFew(rest, t.index, a, db);
      } else {
        MissedSendsFew(rest, reader, a, db);
      }
    }
  }

  lemma {:induction false} CreditsWithinValues(log: Log, reader: nat, a: Address)
    ensures Below(Credits, log, reader, a) <= SumOfValues(log)
  {
    if log != [] { CreditsWithinValues(log[..|log| - 1], reader, a); }
  }

  /** When the final account is the full ledger, nothing that counts was missed. */
  lemma {:induction false} NothingMissed(log: Log, a: Address, db: Db)
    requires DistinctIndices(log) && LogAdmitted(log, db) && |log| <= TWO_64 && SumOfValues(log) < TWO_256
    requires Posted(AccountOf(db, a), Visible(log, TWO_64, a, db).acc,
                    Total(Sends, log, a), Total(Debits, log, a), Total(Credits, log, a))
    ensures Missed(Sends, log, TWO_64, a, db) == 0 && Missed(Credits, log, TWO_64, a, db) == 0
  {
    VisiblePosts(log, TWO_64, a, db);
    TotalIsIncludedOrMissed(Sends, log, a, db);
    TotalIsIncludedOrMissed(Debits, log, a, db);
    TotalIsIncludedOrMissed(Credits, log, a, db);
    MissedBounds(log, a, db);
    LedgersAgree(AccountOf(db, a), Visible(log, TWO_64, a, db).acc,
                 Included(Sends, log, TWO_64, a, db), Included(Debits, log, TWO_64, a, db), Included(Credits, log,
                         TWO_64, a, db),
                 Missed(Sends, log, TWO_64, a, db), Missed(Debits, log, TWO_64, a, db),
                  Missed(Credits, log, TWO_64, a, db),
                 Total(Sends, log, a), Total(Debits, log, a), Total(Credits, log, a));
  }

  lemma MissedBounds(log: Log, a: Address, db: Db)
    requires DistinctIndices(log) && |log| <= TWO_64 && SumOfValues(log) < TWO_256
    ensures Missed(Sends, log, TWO_64, a, db) < TWO_64 && Missed(Credits, log, TWO_64, a, db) < TWO_256
    ensures Missed(Sends, log, TWO_64, a, db) == 0 ==> Missed(Debits, log, TWO_64, a, db) == 0
  {
    MissedSendsFew(log, TWO_64, a, db);
    if Missed(Sends, log, TWO_64, a, db) == 0 { MissedDebits(log, TWO_64, a, db); }
    IncludedOrMissed(Credits, log, TWO_64, a, db);
    CreditsWithinValues(log, TWO_64, a);
  }

  lemma TotalIsIncludedOrMissed(q: Quantity, log: Log, a: Address, db: Db)
    requires DistinctIndices(log)
    ensures Included(q, log, TWO_64, a, db) + Missed(q, log, TWO_64, a, db) == Total(q, log, a)
  {
    IncludedOrMissed(q, log, TWO_64, a, db);
    BelowAll(q, log, a);
  }

  /** A lost update shows in the final account. */
  lemma {:induction false} LostUpdateShows(log: Log, sorted: seq<TxAccessList>, db: Db, p: nat, q: nat, a: Address)
    requires DistinctIndices(log) && LogAdmitted(log, db) && |log| <= TWO_64 && SumOfValues(log) < TWO_256
    requires multiset(sorted) == multiset(log) && Serial(sorted, db).Ok?
    requires LateTouch(log, p, q, a) && ChangesAccount(log[q], a)
    ensures AccountOf(Serial(sorted, db).value, a) != Visible(log, TWO_64, a, db).acc
  {
    SerialPosts(sorted, db, a);
    forall z: Quantity ensures Total(z, sorted, a) == Total(z, log, a) { TotalPermutation(z, sorted, log, a); }
    LateIsMissed(Sends, log, p, q, TWO_64, a, db);
    LateIsMissed(Credits, log, p, q, TWO_64, a, db);
    if AccountOf(Serial(sorted, db).value, a) == Visible(log, TWO_64, a, db).acc { NothingMissed(log, a, db); }
  }

  /** If the final accounts are those of serial execution, no update was lost. */
  lemma {:induction false} SerialMeansNoLostUpdate(log: Log, sorted: seq<TxAccessList>, db: Db)
    requires DistinctIndices(log) && LogAdmitted(log, db) && |log| <= TWO_64 && SumOfValues(log) < TWO_256
    requires multiset(sorted) == multiset(log) && Serial(sorted, db).Ok?
    requires LogIsState(log, TWO_64, db, Serial(sorted, db).value)
    ensures !LostUpdate(log)
  {
    forall p: nat, q: nat, a: Address | LateTouch(log, p, q, a) ensures !ChangesAccount(log[q], a) {
      if ChangesAccount(log[q], a) { LostUpdateShows(log, sorted, db, p, q, a); }
    }
  }
}
