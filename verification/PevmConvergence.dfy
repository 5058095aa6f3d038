/** Why the optimistic engine converges: every round commits, and a transfer deferred again and again
    ends a chain of dependencies with one link for every round. */
module PevmConvergence {
  import opened Lists
  import opened Machine
  import opened State
  import opened Transfers
  import opened Ordering
  import opened Waves
  import opened FirstFit
  import opened Mvcc
  import opened CommitLog
  import opened Pevm

  /** What versions are kept of. */
  datatype Location = AccountAt(a: Address) | SlotAt(k: Slot)

  predicate Writes(t: TxAccessList, l: Location) {
    match l
    case AccountAt(a) => Touches(t, a)
    case SlotAt(k) => WritesSlot(t, k.0, k.1)
  }

  predicate Reads(t: TxAccessList, l: Location) {
    match l
    case AccountAt(a) => a in AccountsRead(t)
    case SlotAt(k) => k in SlotsRead(t)
  }

  /** `t` writes an account or a slot that `u` reads. */
  ghost predicate Feeds(t: TxAccessList, u: TxAccessList) {
    exists l :: Writes(t, l) && Reads(u, l)
  }

  /** `h` can make `t` wait a round: it has a lower index, is joined first, and writes what `t` reads. */
  ghost predicate CanDelay(txs: Txs, h: TxAccessList, t: TxAccessList) {
    h.index < t.index && Feeds(h, t) && Precedes(txs, h, t)
  }

  /**
   The commit at `c` made `t` wait a round: it changed the version `t` reads at `l`, because it has the
   greatest index below that of `t` of all that had written there.
   */
  ghost predicate BlockedBy(txs: Txs, log: Log, rounds: seq<nat>, t: TxAccessList, c: nat, l: Location)
    requires |log| == |rounds| && c < |log|
  {
    && log[c].index < t.index && Precedes(txs, log[c], t) && Writes(log[c], l) && Reads(t, l)
    && forall d :: 0 <= d < |log| && rounds[d] < rounds[c] && log[d].index < t.index && Writes(log[d], l)
                   ==> log[d].index < log[c].index
  }

  /** In round `r` a transfer was committed that made `t` wait. */
  ghost predicate BlockedIn(txs: Txs, s: Run, t: TxAccessList, r: nat)
    requires |s.log| == |s.rounds|
  {
    exists c, l :: 0 <= c < |s.log| && s.rounds[c] == r && BlockedBy(txs, s.log, s.rounds, t, c, l)
  }

  ghost predicate RoundsRecorded(txs: Txs, s: Run)
    requires Shape(txs, s)
  {
    && (forall c :: s.start <= c < |s.log| ==> s.rounds[c] == s.round)
    && (forall c :: 0 <= c < s.start ==> s.rounds[c] < s.round)
    && (forall c :: s.start <= c < |s.log| ==> s.log[c] in txs[..s.cursor])
  }

  lemma CursorMoves(txs: Txs, cursor: nat, t: TxAccessList)
    requires cursor < |txs| && (t in txs[..cursor] || t == txs[cursor])
    ensures t in txs[..cursor + 1]
  {
    assert txs[..cursor + 1] == txs[..cursor] + [txs[cursor]];
  }

  lemma BeforeCursor(txs: Txs, cursor: nat, t: TxAccessList)
    requires cursor < |txs| && t in txs[..cursor]
    ensures Precedes(txs, t, txs[cursor])
  {
    var i :| 0 <= i < cursor && txs[..cursor][i] == t;
    assert txs[i] == t;
  }

  /** Whoever is pending was blocked in every round before. */
  ghost predicate PendingBlocked(txs: Txs, s: Run)
    requires Shape(txs, s)
  {
    forall i, r :: 0 <= i < |txs| && !s.executed[i] && 0 <= r < s.round ==> BlockedIn(txs, s, txs[i], r)
  }

  /** Whoever is pending and has been joined in this round was blocked in it. */
  ghost predicate PassedBlocked(txs: Txs, s: Run)
    requires Shape(txs, s)
  {
    forall i :: 0 <= i < s.cursor && !s.executed[i] ==> BlockedIn(txs, s, txs[i], s.round)
  }

  /** Whoever was committed was blocked in every round before that. */
  ghost predicate CommittedBlocked(txs: Txs, s: Run)
    requires Shape(txs, s)
  {
    forall c, r :: 0 <= c < |s.log| && 0 <= r < s.rounds[c] ==> BlockedIn(txs, s, s.log[c], r)
  }

  /** Whatever waited through a round was blocked in it. */
  ghost predicate WaitersBlocked(txs: Txs, s: Run)
    requires Shape(txs, s)
  {
    PendingBlocked(txs, s) && PassedBlocked(txs, s) && CommittedBlocked(txs, s)
  }

  /** How a run ends. */
  ghost predicate EndedRight(txs: Txs, s: Run)
    requires Shape(txs, s)
  {
    && (s.status == Finished(None) ==> forall i :: 0 <= i < |txs| ==> s.executed[i])
    && (s.status == Finished(Some(FailedToConverge)) ==>
          s.round == MAX_RETRIES - 1 && s.cursor == |txs| && exists i :: 0 <= i < |txs| && !s.executed[i])
  }

  ghost predicate ConvergenceInv(txs: Txs, s: Run) {
    Shape(txs, s) && RoundsRecorded(txs, s) && WaitersBlocked(txs, s) && EndedRight(txs, s)
  }

  lemma BlockedStays(txs: Txs, s: Run, s': Run, t: TxAccessList, r: nat)
    requires |s.log| == |s.rounds| && |s'.log| == |s'.rounds|
    requires s.log <= s'.log && s.rounds <= s'.rounds && BlockedIn(txs, s, t, r)
    requires forall d :: |s.log| <= d < |s'.log| ==> s'.rounds[d] >= r
    ensures BlockedIn(txs, s', t, r)
  {
    var c, l :| 0 <= c < |s.log| && s.rounds[c] == r && BlockedBy(txs, s.log, s.rounds, t, c, l);
    assert s'.rounds[c] == r && BlockedBy(txs, s'.log, s'.rounds, t, c, l);
  }

  lemma BlockerCanDelay(txs: Txs, s: Run, t: TxAccessList, r: nat) returns (c: nat)
    requires |s.log| == |s.rounds| && BlockedIn(txs, s, t, r)
    ensures c < |s.log| && s.rounds[c] == r && CanDelay(txs, s.log[c], t)
  {
    var l;
    c, l :| 0 <= c < |s.log| && s.rounds[c] == r && BlockedBy(txs, s.log, s.rounds, t, c, l);
  }

  /** A read that fails validation names its blocker: a commit of this round. */
  lemma {:induction false} DeferredIsBlocked(txs: Txs, db: Db, s: Run)
    requires Inv(txs, db, s) && RoundsRecorded(txs, s) && Enabled(txs, s, Settle) && !s.executed[s.cursor]
    requires s.snaps[s.cursor].result.Done? && !Validates(s.snaps[s.cursor].result, txs[s.cursor], s.store, db)
    ensures BlockedIn(txs, s, txs[s.cursor], s.round)
  {
    var tx, at := txs[s.cursor], s.snaps[s.cursor].at;
    assert TakenFrom(tx, db, s.log, s.snaps[s.cursor]);
    var c, l := Blocker(s.log, at, tx, db);
    assert s.rounds[c] == s.round;
    BeforeCursor(txs, s.cursor, s.log[c]);
    WriterBlocks(txs, s, tx, c, l);
  }

  /** The blocker is the writer that validation finds. */
  lemma {:induction false} Blocker(log: Log, q: nat, tx: TxAccessList, db: Db) returns (c: nat, l: Location)
    requires DistinctIndices(log) && q <= |log| && RunThread(tx, StoreOf(log[..q], db), db).Done?
    requires !Validates(RunThread(tx, StoreOf(log[..q], db), db), tx, StoreOf(log, db), db)
    ensures q <= c < |log| && LatestWriter(log, tx, c, l)
  {
    var res := RunThread(tx, StoreOf(log[..q], db), db);
    PrefixDistinct(log, q);
    if a :| a in res.readAccounts
          && ReadAccount(StoreOf(log, db), tx.index, a, db).version != res.readAccounts[a].version
    {
      StoreReads(log[..q], db, tx, a);
      StoreReads(log, db, tx, a);
      l := AccountAt(a);
      c := NewWriter(log, q, tx, a, db);
    } else {
      var k :| k in res.readSlots && ReadSlot(StoreOf(log, db), tx.index, k, db).version != res.readSlots[k].version;
      StoreReadsSlot(log[..q], db, tx, k);
      StoreReadsSlot(log, db, tx, k);
      l := SlotAt(k);
      c := NewSlotWriter(log, q, tx, k, db);
    }
  }

  /** What `t` reads at `l` was written by the commit at `c`. */
  ghost predicate LatestWriter(log: Log, t: TxAccessList, c: nat, l: Location)
    requires c < |log|
  {
    && log[c].index < t.index && Writes(log[c], l) && Reads(t, l)
    && forall d :: 0 <= d < |log| && d != c && log[d].index < t.index && Writes(log[d], l)
                   ==> log[d].index < log[c].index
  }

  /** A latest writer of this round blocks. */
  lemma WriterBlocks(txs: Txs, s: Run, t: TxAccessList, c: nat, l: Location)
    requires |s.log| == |s.rounds| && c < |s.log| && LatestWriter(s.log, t, c, l) && Precedes(txs, s.log[c], t)
    ensures BlockedIn(txs, s, t, s.rounds[c])
  {
    assert BlockedBy(txs, s.log, s.rounds, t, c, l);
  }

  lemma {:induction false} NewWriter(log: Log, q: nat, tx: TxAccessList, a: Address, db: Db) returns (c: nat)
    requires DistinctIndices(log) && q <= |log| && a in AccountsRead(tx)
    requires Visible(log[..q], tx.index, a, db).writer != Visible(log, tx.index, a, db).writer
    ensures q <= c < |log| && LatestWriter(log, tx, c, AccountAt(a))
  {
    VersionsOnlyRise(log, q, tx.index, a, db);
    VisibleIsGreatest(log[..q], tx.index, a, db);
    VisibleIsGreatest(log, tx.index, a, db);
    assert forall p :: 0 <= p < q ==> log[..q][p] == log[p];
    c :| 0 <= c < |log| && log[c].index == Visible(log, tx.index, a, db).writer && Touches(log[c], a);
  }

  lemma {:induction false} NewSlotWriter(log: Log, q: nat, tx: TxAccessList, k: Slot, db: Db) returns (c: nat)
    requires DistinctIndices(log) && q <= |log| && k in SlotsRead(tx)
    requires VisibleSlot(log[..q], tx.index, k, db).writer != VisibleSlot(log, tx.index, k, db).writer
    ensures q <= c < |log| && LatestWriter(log, tx, c, SlotAt(k))
  {
    SlotVersionsOnlyRise(log, q, tx.index, k, db);
    VisibleSlotIsGreatest(log[..q], tx.index, k, db);
    VisibleSlotIsGreatest(log, tx.index, k, db);
    assert forall p :: 0 <= p < q ==> log[..q][p] == log[p];
    c :| 0 <= c < |log| && log[c].index == VisibleSlot(log, tx.index, k, db).writer && WritesSlot(log[c], k.0, k.1);
  }

  /** What committing the transfer at the cursor does to the history and to the main thread. */
  ghost predicate OneCommit(txs: Txs, s: Run, s': Run)
    requires Shape(txs, s) && s.cursor < |txs|
  {
    && s'.log == s.log + [txs[s.cursor]] && s'.rounds == s.rounds + [s.round]
    && s'.executed == s.executed[s.cursor := true] && s'.cursor == s.cursor + 1
    && s'.round == s.round && s'.start == s.start && s'.status == s.status
  }

  lemma CommitIsOne(txs: Txs, s: Run, res: ThreadResult)
    requires Shape(txs, s) && s.cursor < |txs| && res.Done?
    ensures OneCommit(txs, s, CommitStep(txs[s.cursor], s, res)) && Shape(txs, CommitStep(txs[s.cursor], s, res))
  {
  }

  lemma CommitStays(txs: Txs, s: Run, s': Run, t: TxAccessList, r: nat)
    requires Shape(txs, s) && s.cursor < |txs| && OneCommit(txs, s, s') && r <= s.round && BlockedIn(txs, s, t, r)
    ensures BlockedIn(txs, s', t, r)
  {
    BlockedStays(txs, s, s', t, r);
  }

  lemma {:induction false} PendingStaysBlocked(txs: Txs, s: Run, s': Run)
    requires Shape(txs, s) && PendingBlocked(txs, s) && s.cursor < |txs| && OneCommit(txs, s, s') && Shape(txs, s')
    ensures PendingBlocked(txs, s')
  {
    forall i, r | 0 <= i < |txs| && !s'.executed[i] && 0 <= r < s'.round ensures BlockedIn(txs, s', txs[i], r) {
      assert BlockedIn(txs, s, txs[i], r);
      CommitStays(txs, s, s', txs[i], r);
    }
  }

  lemma {:induction false} PassedStaysBlocked(txs: Txs, s: Run, s': Run)
    requires Shape(txs, s) && PassedBlocked(txs, s) && s.cursor < |txs| && OneCommit(txs, s, s') && Shape(txs, s')
    ensures PassedBlocked(txs, s')
  {
    forall i | 0 <= i < s'.cursor && !s'.executed[i] ensures BlockedIn(txs, s', txs[i], s'.round) {
      assert BlockedIn(txs, s, txs[i], s.round);
      CommitStays(txs, s, s', txs[i], s.round);
    }
  }

  /** The transfer being committed waited through the rounds before. */
  lemma {:induction false} CommittedStaysBlocked(txs: Txs, s: Run, s': Run)
    requires Shape(txs, s) && RoundsRecorded(txs, s) && PendingBlocked(txs, s) && CommittedBlocked(txs, s)
    requires s.cursor < |txs| && !s.executed[s.cursor] && OneCommit(txs, s, s') && Shape(txs, s')
    ensures CommittedBlocked(txs, s')
  {
    forall c, r | 0 <= c < |s'.log| && 0 <= r < s'.rounds[c] ensures BlockedIn(txs, s', s'.log[c], r) {
      if c < |s.log| {
        assert s'.log[c] == s.log[c] && s'.rounds[c] == s.rounds[c] <= s.round;
        assert BlockedIn(txs, s, s.log[c], r);
      } else {
        assert s'.log[c] == txs[s.cursor] && s'.rounds[c] == s.round;
        assert BlockedIn(txs, s, txs[s.cursor], r);
      }
      CommitStays(txs, s, s', s'.log[c], r);
    }
  }

  lemma {:induction false} CommitRecorded(txs: Txs, s: Run, s': Run)
    requires Shape(txs, s) && RoundsRecorded(txs, s) && s.cursor < |txs| && OneCommit(txs, s, s') && Shape(txs, s')
    ensures RoundsRecorded(txs, s')
  {
    forall c | s.start <= c < |s'.log| ensures s'.log[c] in txs[..s'.cursor] {
      CursorMoves(txs, s.cursor, s'.log[c]);
    }
  }

  lemma SameLogSameBlocked(txs: Txs, s: Run, s': Run)
    requires Shape(txs, s) && Shape(txs, s') && s'.log == s.log && s'.rounds == s.rounds
    ensures forall t, r: nat :: BlockedIn(txs, s, t, r) <==> BlockedIn(txs, s', t, r)
  {
  }

  lemma {:induction false} CommitConverges(txs: Txs, s: Run, res: ThreadResult)
    requires ConvergenceInv(txs, s) && s.status.Running? && s.cursor < |txs| && !s.executed[s.cursor] && res.Done?
    ensures ConvergenceInv(txs, CommitStep(txs[s.cursor], s, res))
  {
    CommitIsOne(txs, s, res);
    OneCommitConverges(txs, s, CommitStep(txs[s.cursor], s, res));
  }

  lemma {:induction false} OneCommitConverges(txs: Txs, s: Run, s': Run)
    requires ConvergenceInv(txs, s) && s.status.Running? && s.cursor < |txs| && !s.executed[s.cursor]
    requires OneCommit(txs, s, s') && Shape(txs, s')
    ensures ConvergenceInv(txs, s')
  {
    PendingStaysBlocked(txs, s, s');
    PassedStaysBlocked(txs, s, s');
    CommittedStaysBlocked(txs, s, s');
    CommitRecorded(txs, s, s');
  }

  /** Moving the cursor past a transfer that is executed or was blocked in this round. */
  lemma AdvanceConverges(txs: Txs, s: Run, s': Run)
    requires ConvergenceInv(txs, s) && s.status.Running? && s.cursor < |txs|
    requires s' == s.(store := s'.store, cursor := s.cursor + 1)
    requires s.executed[s.cursor] || BlockedIn(txs, s, txs[s.cursor], s.round)
    ensures ConvergenceInv(txs, s')
  {
    SameLogSameBlocked(txs, s, s');
    forall c | s.start <= c < |s.log| ensures s.log[c] in txs[..s.cursor + 1] {
      CursorMoves(txs, s.cursor, s.log[c]);
    }
  }

  lemma StopConverges(txs: Txs, s: Run, e: ExecError)
    requires ConvergenceInv(txs, s) && !e.FailedToConverge?
    ensures ConvergenceInv(txs, s.(status := Finished(Some(e))))
  {
    SameLogSameBlocked(txs, s, s.(status := Finished(Some(e))));
  }

  /** A thread fails only with a nonce or balance error. */
  lemma ThreadError(tx: TxAccessList, store: Store, db: Db)
    requires RunThread(tx, store, db).Failed?
    ensures !RunThread(tx, store, db).error.FailedToConverge?
  {
  }

  lemma FailedJoinConverges(txs: Txs, db: Db, s: Run)
    requires ConvergenceInv(txs, s) && Enabled(txs, s, Settle) && !s.executed[s.cursor]
    requires s.snaps[s.cursor].result.Failed? && !s.snaps[s.cursor].result.error.FailedToConverge?
    ensures ConvergenceInv(txs, SettleStep(txs, db, s))
  {
    StopConverges(txs, s, s.snaps[s.cursor].result.error);
  }

  lemma {:induction false} DeferralConverges(txs: Txs, db: Db, s: Run)
    requires ConvergenceInv(txs, s) && Enabled(txs, s, Settle) && !s.executed[s.cursor]
    requires s.snaps[s.cursor].result.Done? && !Validates(s.snaps[s.cursor].result, txs[s.cursor], s.store, db)
    requires BlockedIn(txs, s, txs[s.cursor], s.round)
    ensures ConvergenceInv(txs, SettleStep(txs, db, s))
  {
    AdvanceConverges(txs, s, SettleStep(txs, db, s));
  }

  lemma ExecutedConverges(txs: Txs, db: Db, s: Run)
    requires ConvergenceInv(txs, s) && Enabled(txs, s, Settle) && s.executed[s.cursor]
    ensures ConvergenceInv(txs, SettleStep(txs, db, s))
  {
    AdvanceConverges(txs, s, SettleStep(txs, db, s));
  }

  lemma {:induction false} CommittedConverges(txs: Txs, db: Db, s: Run)
    requires ConvergenceInv(txs, s) && Enabled(txs, s, Settle) && !s.executed[s.cursor]
    requires s.snaps[s.cursor].result.Done? && Validates(s.snaps[s.cursor].result, txs[s.cursor], s.store, db)
    ensures ConvergenceInv(txs, SettleStep(txs, db, s))
  {
    CommitConverges(txs, s, s.snaps[s.cursor].result);
  }

  lemma FailureIsAnError(txs: Txs, db: Db, s: Run)
    requires Inv(txs, db, s) && Enabled(txs, s, Settle) && !s.executed[s.cursor] && s.snaps[s.cursor].result.Failed?
    ensures !s.snaps[s.cursor].result.error.FailedToConverge?
  {
    assert TakenFrom(txs[s.cursor], db, s.log, s.snaps[s.cursor]);
    ThreadError(txs[s.cursor], StoreOf(s.log[..s.snaps[s.cursor].at], db), db);
  }

  lemma {:induction false} SettleConverges(txs: Txs, db: Db, s: Run)
    requires Inv(txs, db, s) && ConvergenceInv(txs, s) && Enabled(txs, s, Settle)
    ensures ConvergenceInv(txs, SettleStep(txs, db, s))
  {
    if s.executed[s.cursor] {
      ExecutedConverges(txs, db, s);
    } else if s.snaps[s.cursor].result.Failed? {
      FailureIsAnError(txs, db, s);
      FailedJoinConverges(txs, db, s);
    } else if Validates(s.snaps[s.cursor].result, txs[s.cursor], s.store, db) {
      CommittedConverges(txs, db, s);
    } else {
      DeferredIsBlocked(txs, db, s);
      DeferralConverges(txs, db, s);
    }
  }

  lemma {:induction false} EndRoundConverges(txs: Txs, s: Run)
    requires ConvergenceInv(txs, s) && Enabled(txs, s, EndRound)
    ensures ConvergenceInv(txs, EndRoundStep(s))
  {
    var s' := EndRoundStep(s);
    SameLogSameBlocked(txs, s, s');
  }

  lemma {:induction false} ReachableConverges(txs: Txs, db: Db, steps: seq<Step>)
    requires DistinctIndices(txs) && AfterSteps(txs, db, steps).Some?
    ensures ConvergenceInv(txs, AfterSteps(txs, db, steps).value)
  {
    if steps != [] {
      var before, step := steps[..|steps| - 1], steps[|steps| - 1];
      ReachableInv(txs, db, before);
      ReachableConverges(txs, db, before);
      var s := AfterSteps(txs, db, before).value;
      match step
      case TakeSnapshot(i) => SameLogSameBlocked(txs, s, Next(txs, db, s, step));
      case Settle => SettleConverges(txs, db, s);
      case EndRound => EndRoundConverges(txs, s);
    }
  }

  // ---------- the theorems ----------

  lemma LogCount(txs: Txs, s: Run)
    requires DistinctIndices(txs) && Shape(txs, s) && LogMatches(txs, s)
    ensures |s.log| <= |txs|
    ensures (forall i :: 0 <= i < |txs| ==> s.executed[i]) ==> |s.log| == |txs|
  {
    IndexCount(txs);
    IndexCount(s.log);
    SubsetSize(Indices(s.log), Indices(txs));
    if forall i :: 0 <= i < |txs| ==> s.executed[i] {
      assert Indices(txs) == Indices(s.log);
    }
  }

  /** Progress: a round that began with a transfer pending ends with at least one more commit. */
  lemma EveryRoundCommits(txs: Txs, db: Db, steps: seq<Step>)
    requires DistinctIndices(txs) && AfterSteps(txs, db, steps).Some?
    requires var s := AfterSteps(txs, db, steps).value; Enabled(txs, s, EndRound) && s.start < |txs|
    ensures var s := AfterSteps(txs, db, steps).value; |s.log| > s.start
  {
    var s := AfterSteps(txs, db, steps).value;
    ReachableInv(txs, db, steps);
    ReachableConverges(txs, db, steps);
    LogCount(txs, s);
    if i :| 0 <= i < |txs| && !s.executed[i] {
      assert BlockedIn(txs, s, txs[i], s.round);
    }
  }

  /** Each transfer can delay the next: it feeds it, has a lower index and is listed before it. */
  ghost predicate DependencyChain(txs: Txs, chain: seq<TxAccessList>) {
    forall j :: 0 <= j < |chain| - 1 ==> CanDelay(txs, chain[j], chain[j + 1])
  }

  lemma {:induction false} ChainTo(txs: Txs, s: Run, t: TxAccessList, r: nat) returns (chain: seq<TxAccessList>)
    decreases r
    requires Shape(txs, s) && WaitersBlocked(txs, s) && BlockedIn(txs, s, t, r)
    ensures |chain| == r + 2 && chain[r + 1] == t && DependencyChain(txs, chain)
    ensures forall j :: 0 <= j <= r ==> chain[j] in s.log
  {
    var c := BlockerCanDelay(txs, s, t, r);
    if r == 0 {
      chain := [s.log[c], t];
    } else {
      var shorter := ChainTo(txs, s, s.log[c], r - 1);
      chain := shorter + [t];
    }
  }

  /**
   The error "failed to converge" needs a chain of 21 transfers of the block, increasing in index and
   in list order, each writing something the next one reads.
   */
  lemma {:induction false} FailureNeedsChain(txs: Txs, db: Db, steps: seq<Step>) returns (chain: seq<TxAccessList>)
    requires DistinctIndices(txs) && AfterSteps(txs, db, steps).Some?
    requires AfterSteps(txs, db, steps).value.status == Finished(Some(FailedToConverge))
    ensures |chain| == 21 && DependencyChain(txs, chain)
    ensures forall t :: t in chain ==> t in txs
  {
    ReachableInv(txs, db, steps);
    ReachableConverges(txs, db, steps);
    chain := ChainOfLastWaiter(txs, AfterSteps(txs, db, steps).value);
  }

  lemma ChainOfLastWaiter(txs: Txs, s: Run) returns (chain: seq<TxAccessList>)
    requires ConvergenceInv(txs, s) && LogMatches(txs, s) && s.status == Finished(Some(FailedToConverge))
    ensures |chain| == 21 && DependencyChain(txs, chain)
    ensures forall t :: t in chain ==> t in txs
  {
    var i :| 0 <= i < |txs| && !s.executed[i];
    assert BlockedIn(txs, s, txs[i], s.round);
    chain := ChainTo(txs, s, txs[i], s.round);
    forall j | 0 <= j < |chain| ensures chain[j] in txs {
      if j <= s.round { assert chain[j] in s.log; }
    }
  }

  lemma {:induction false} ChainIncreases(txs: Txs, chain: seq<TxAccessList>, i: nat, j: nat)
    requires DependencyChain(txs, chain) && i < j < |chain|
    ensures chain[i].index < chain[j].index
  {
    if i + 1 < j { ChainIncreases(txs, chain, i, j - 1); }
    assert CanDelay(txs, chain[j - 1], chain[j]);
  }

  /** A block of at most 20 transfers never fails to converge, whatever the schedule. */
  lemma SmallBlocksConverge(txs: Txs, db: Db, steps: seq<Step>)
    requires DistinctIndices(txs) && AfterSteps(txs, db, steps).Some? && |txs| <= 20
    ensures AfterSteps(txs, db, steps).value.status != Finished(Some(FailedToConverge))
  {
    if AfterSteps(txs, db, steps).value.status == Finished(Some(FailedToConverge)) {
      var chain := FailureNeedsChain(txs, db, steps);
      forall i, j | 0 <= i < j < |chain| ensures chain[i].index != chain[j].index { ChainIncreases(txs, chain, i, j); }
      IndexCount(chain);
      IndexCount(txs);
      SubsetSize(Indices(chain), Indices(txs));
    }
  }
}
