/** On which blocks the optimistic engine can fail to converge: a condition on the block alone. */
module PevmStalls {
  import opened Machine
  import opened State
  import opened Transfers
  import opened Ordering
  import opened FirstFit
  import opened WaveRefinement
  import opened Pevm
  import opened PevmConvergence
  import opened PevmSchedules
  import opened PevmErrors

  /**
   A plan says in which round each transfer commits; one that is planned for round 20 or later never does.
   Under it, `h` makes `i` wait through its own round: of all planned up to then, `h` is the writer that
   `i` would read from.
   */
  ghost predicate HoldsBack(txs: Txs, plan: seq<nat>, h: nat, i: nat, l: Location)
    requires |plan| == |txs| && h < |txs| && i < |txs|
  {
    && h < i && txs[h].index < txs[i].index && Writes(txs[h], l) && Reads(txs[i], l)
    && forall u :: 0 <= u < |txs| && plan[u] < plan[h] && txs[u].index < txs[i].index && Writes(txs[u], l)
                   ==> txs[u].index < txs[h].index
  }

  ghost predicate WaitsIn(txs: Txs, plan: seq<nat>, i: nat, r: nat)
    requires |plan| == |txs| && i < |txs|
  {
    exists h, l :: 0 <= h < |txs| && plan[h] == r && HoldsBack(txs, plan, h, i, l)
  }

  /** Whoever is to commit late is held back in every round before. */
  ghost predicate Feasible(txs: Txs, plan: seq<nat>) {
    && |plan| == |txs|
    && forall i, r: nat :: 0 <= i < |txs| && r < plan[i] && r < 20 ==> WaitsIn(txs, plan, i, r)
  }

  /** Some feasible plan leaves a transfer out of all 20 rounds. */
  ghost predicate Stallable(txs: Txs) {
    exists plan, i :: Feasible(txs, plan) && 0 <= i < |txs| && plan[i] >= 20
  }

  ghost predicate MayStall(txs: Txs, db: Db) {
    exists steps ::
      AfterSteps(txs, db, steps).Some? && AfterSteps(txs, db, steps).value.status == Finished(Some(FailedToConverge))
  }

  // ---------- a failed run is a plan ----------

  /** The round in which a run committed a transfer. */
  ghost function RoundOf(s: Run, t: TxAccessList): nat
    requires |s.log| == |s.rounds|
  {
    if t in s.log then (var c :| 0 <= c < |s.log| && s.log[c] == t; s.rounds[c]) else MAX_RETRIES
  }

  lemma RoundOfCommit(s: Run, c: nat)
    requires |s.log| == |s.rounds| && DistinctIndices(s.log) && c < |s.log|
    ensures RoundOf(s, s.log[c]) == s.rounds[c]
  {
  }

  ghost function PlanOf(txs: Txs, s: Run): (plan: seq<nat>)
    requires |s.log| == |s.rounds|
    ensures |plan| == |txs| && forall i :: 0 <= i < |txs| ==> plan[i] == RoundOf(s, txs[i])
  {
    seq(|txs|, i requires 0 <= i < |txs| => RoundOf(s, txs[i]))
  }

  /** A transfer that was blocked in a round waits in that round of the plan. */
  lemma {:induction false} BlockedWaits(txs: Txs, s: Run, i: nat, r: nat)
    requires DistinctIndices(txs) && Shape(txs, s) && LogMatches(txs, s)
    requires i < |txs| && r < MAX_RETRIES && BlockedIn(txs, s, txs[i], r)
    ensures WaitsIn(txs, PlanOf(txs, s), i, r)
  {
    var c, l :| 0 <= c < |s.log| && s.rounds[c] == r && BlockedBy(txs, s.log, s.rounds, txs[i], c, l);
    assert s.log[c] in txs;
    var h :| 0 <= h < |txs| && txs[h] == s.log[c];
    PrecedesOnce(txs, h, i);
    RoundOfCommit(s, c);
    forall u | 0 <= u < |txs| && RoundOf(s, txs[u]) < r && txs[u].index < txs[i].index && Writes(txs[u], l)
      ensures txs[u].index < txs[h].index
    {
      var d :| 0 <= d < |s.log| && s.log[d] == txs[u];
      RoundOfCommit(s, d);
    }
    assert HoldsBack(txs, PlanOf(txs, s), h, i, l);
  }

  lemma {:induction false} PlanIsFeasible(txs: Txs, s: Run)
    requires DistinctIndices(txs) && ConvergenceInv(txs, s) && LogMatches(txs, s)
    requires s.round == MAX_RETRIES - 1 && s.cursor == |txs|
    ensures Feasible(txs, PlanOf(txs, s))
  {
    forall i, r: nat | 0 <= i < |txs| && r < PlanOf(txs, s)[i] && r < MAX_RETRIES
      ensures WaitsIn(txs, PlanOf(txs, s), i, r)
    {
      if txs[i] in s.log {
        var c :| 0 <= c < |s.log| && s.log[c] == txs[i];
        RoundOfCommit(s, c);
        assert BlockedIn(txs, s, s.log[c], r);
      } else {
        assert !s.executed[i] && BlockedIn(txs, s, txs[i], r);
      }
      BlockedWaits(txs, s, i, r);
    }
  }

  /** Every run that fails to converge, of whatever block, follows a feasible plan that leaves someone out. */
  lemma {:induction false} FailureIsStall(txs: Txs, db: Db, steps: seq<Step>)
    requires DistinctIndices(txs) && AfterSteps(txs, db, steps).Some?
    requires AfterSteps(txs, db, steps).value.status == Finished(Some(FailedToConverge))
    ensures Stallable(txs)
  {
    var s := AfterSteps(txs, db, steps).value;
    ReachableInv(txs, db, steps);
    ReachableConverges(txs, db, steps);
    PlanIsFeasible(txs, s);
    var i :| 0 <= i < |txs| && !s.executed[i];
    assert PlanOf(txs, s)[i] >= MAX_RETRIES;
  }

  // ---------- a feasible plan can be run ----------

  /** Round `r` begins, and exactly those planned for earlier rounds have been committed. */
  ghost predicate AtRoundStart(txs: Txs, plan: seq<nat>, s: Run, r: nat)
    requires |plan| == |txs| == |s.executed|
  {
    && s.round == r && s.cursor == 0 && s.snaps == map[] && s.start == |s.log|
    && forall i :: 0 <= i < |txs| ==> (s.executed[i] <==> plan[i] < r)
  }

  /** In round `r`: whoever is planned for later has read at its start, and the others have not read yet. */
  ghost predicate InRound(txs: Txs, plan: seq<nat>, s: Run, r: nat)
    requires |plan| == |txs| == |s.executed|
  {
    && s.round == r && s.cursor <= |txs| && s.start <= |s.log|
    && (forall i :: 0 <= i < |txs| ==> (s.executed[i] <==> plan[i] < r || (plan[i] == r && i < s.cursor)))
    && (forall i :: s.cursor <= i < |txs| && plan[i] > r ==> ReadAtStart(s, i))
    && (forall i :: s.cursor <= i < |txs| && plan[i] == r ==> i !in s.snaps)
    && (forall i :: 0 <= i < |txs| && txs[i] in s.log[..s.start] ==> plan[i] < r)
  }

  /** At the start of the round the first `n` threads read, if they are planned for later. */
  lemma {:induction false} LateOnesRead(txs: Txs, db: Db, plan: seq<nat>, s: Run, r: nat, n: nat) returns (s': Run)
    requires Live(txs, db, s) && |plan| == |txs| && AtRoundStart(txs, plan, s, r) && n <= |txs|
    ensures Live(txs, db, s') && s' == s.(snaps := s'.snaps)
    ensures forall i :: i in s'.snaps <==> 0 <= i < n && plan[i] > r
    ensures forall i :: i in s'.snaps ==> ReadAtStart(s', i)
  {
    if n == 0 {
      s' := s;
    } else {
      s' := LateOnesRead(txs, db, plan, s, r, n - 1);
      if plan[n - 1] > r {
        var before := s';
        s' := ReadOnly(txs, db, before, n - 1);
        assert forall i :: i in before.snaps ==> ReadAtStart(before, i);
      }
    }
  }

  lemma {:induction false} LoggedIffExecuted(txs: Txs, db: Db, s: Run)
    requires Live(txs, db, s)
    ensures forall i :: 0 <= i < |txs| ==> (s.executed[i] <==> txs[i] in s.log)
    ensures forall t :: t in s.log ==> t in txs
    ensures LogAdmitted(s.log, db) && DistinctIndices(s.log)
  {
    var steps :| AfterSteps(txs, db, steps) == Some(s);
    ReachableInv(txs, db, steps);
  }

  lemma {:induction false} BeginRound(txs: Txs, db: Db, plan: seq<nat>, s: Run, r: nat) returns (s': Run)
    requires Live(txs, db, s) && |plan| == |txs| && AtRoundStart(txs, plan, s, r)
    ensures Live(txs, db, s') && InRound(txs, plan, s', r) && s'.cursor == 0
  {
    s' := LateOnesRead(txs, db, plan, s, r, |txs|);
    LoggedIffExecuted(txs, db, s');
    assert s'.log[..s'.start] == s'.log;
  }

  /** A transfer planned for later finds what it read hidden by a commit of this round. */
  lemma {:induction false} FindsItHidden(txs: Txs, db: Db, plan: seq<nat>, s: Run, r: nat) returns (p: nat, l: Location)
    requires Live(txs, db, s) && Feasible(txs, plan) && InRound(txs, plan, s, r) && r < MAX_RETRIES
    requires s.cursor < |txs| && plan[s.cursor] > r
    ensures p < |s.log| && Hides(s.log, s.start, txs[s.cursor], p, l)
  {
    var i := s.cursor;
    assert WaitsIn(txs, plan, i, r);
    var h;
    h, l :| 0 <= h < |txs| && plan[h] == r && HoldsBack(txs, plan, h, i, l);
    LoggedIffExecuted(txs, db, s);
    p :| 0 <= p < |s.log| && s.log[p] == txs[h];
    forall d | 0 <= d < s.start && s.log[d].index < txs[i].index && Writes(s.log[d], l)
      ensures s.log[d].index < s.log[p].index
    {
      assert s.log[d] in txs && s.log[..s.start][d] == s.log[d];
      var u :| 0 <= u < |txs| && txs[u] == s.log[d];
    }
  }

  lemma {:induction false} AdmittedAtRoundStart(txs: Txs, sorted: seq<TxAccessList>, db: Db, s: Run, i: nat)
    requires RunsInOrder(txs, sorted, db) && AllAdmitted(txs, db) && Live(txs, db, s) && i < |txs| && s.start <= |s.log|
    ensures AdmitsAt(s.log[..s.start], txs[i], db)
  {
    LoggedIffExecuted(txs, db, s);
    PrefixLog(s.log, db, s.start);
    assert forall u :: u in s.log[..s.start] ==> u in s.log;
    AdmittedEverywhere(txs, sorted, db, s.log[..s.start], txs[i]);
  }

  /** Passing a transfer that is not planned for this round. */
  lemma RoundGoesOn(txs: Txs, plan: seq<nat>, s: Run, s': Run, r: nat)
    requires |plan| == |txs| == |s.executed| && InRound(txs, plan, s, r) && s.cursor < |txs| && plan[s.cursor] != r
    requires s' == s.(store := s'.store, cursor := s.cursor + 1)
    ensures InRound(txs, plan, s', r)
  {
    assert forall i :: ReadAtStart(s, i) ==> ReadAtStart(s', i);
  }

  lemma {:induction false} JoinLate(txs: Txs, sorted: seq<TxAccessList>, db: Db, plan: seq<nat>, s: Run, r: nat)
    returns (s': Run)
    requires RunsInOrder(txs, sorted, db) && AllAdmitted(txs, db) && Live(txs, db, s)
    requires Feasible(txs, plan) && InRound(txs, plan, s, r) && r < MAX_RETRIES && s.cursor < |txs|
    requires plan[s.cursor] > r
    ensures Live(txs, db, s') && InRound(txs, plan, s', r) && s'.cursor == s.cursor + 1
  {
    var p, l := FindsItHidden(txs, db, plan, s, r);
    AdmittedAtRoundStart(txs, sorted, db, s, s.cursor);
    s' := Defer(txs, db, s, p, l);
    RoundGoesOn(txs, plan, s, s', r);
  }

  lemma {:induction false} JoinOnTime(txs: Txs, sorted: seq<TxAccessList>, db: Db, plan: seq<nat>, s: Run, r: nat)
    returns (s': Run)
    requires RunsInOrder(txs, sorted, db) && AllAdmitted(txs, db) && Live(txs, db, s)
    requires |plan| == |txs| && InRound(txs, plan, s, r) && s.cursor < |txs| && plan[s.cursor] == r
    ensures Live(txs, db, s') && InRound(txs, plan, s', r) && s'.cursor == s.cursor + 1
  {
    NextAdmits(txs, sorted, db, s);
    s' := ReadAndJoin(txs, db, s);
    assert s'.log[..s'.start] == s.log[..s.start];
    assert forall i :: ReadAtStart(s, i) ==> ReadAtStart(s', i);
  }

  lemma {:induction false} SkipExecuted(txs: Txs, db: Db, plan: seq<nat>, s: Run, r: nat) returns (s': Run)
    requires Live(txs, db, s) && |plan| == |txs| && InRound(txs, plan, s, r) && s.cursor < |txs| && plan[s.cursor] < r
    ensures Live(txs, db, s') && InRound(txs, plan, s', r) && s'.cursor == s.cursor + 1
  {
    s' := Skip(txs, db, s);
    RoundGoesOn(txs, plan, s, s', r);
  }

  lemma {:induction false} JoinNext(txs: Txs, sorted: seq<TxAccessList>, db: Db, plan: seq<nat>, s: Run, r: nat)
    returns (s': Run)
    requires RunsInOrder(txs, sorted, db) && AllAdmitted(txs, db) && Live(txs, db, s)
    requires Feasible(txs, plan) && InRound(txs, plan, s, r) && r < MAX_RETRIES && s.cursor < |txs|
    ensures Live(txs, db, s') && InRound(txs, plan, s', r) && s'.cursor == s.cursor + 1
  {
    if plan[s.cursor] < r {
      s' := SkipExecuted(txs, db, plan, s, r);
    } else if plan[s.cursor] == r {
      s' := JoinOnTime(txs, sorted, db, plan, s, r);
    } else {
      s' := JoinLate(txs, sorted, db, plan, s, r);
    }
  }

  lemma {:induction false} JoinRest(txs: Txs, sorted: seq<TxAccessList>, db: Db, plan: seq<nat>, s: Run, r: nat)
    returns (s': Run)
    requires RunsInOrder(txs, sorted, db) && AllAdmitted(txs, db) && Live(txs, db, s)
    requires Feasible(txs, plan) && InRound(txs, plan, s, r) && r < MAX_RETRIES
    ensures Live(txs, db, s') && InRound(txs, plan, s', r) && s'.cursor == |txs|
    decreases |txs| - s.cursor
  {
    if s.cursor == |txs| {
      s' := s;
    } else {
      var next := JoinNext(txs, sorted, db, plan, s, r);
      s' := JoinRest(txs, sorted, db, plan, next, r);
    }
  }

  /** The plan, round after round. */
  lemma {:induction false} RunPlan(txs: Txs, sorted: seq<TxAccessList>, db: Db, plan: seq<nat>, i: nat, r: nat)
    returns (s: Run)
    requires RunsInOrder(txs, sorted, db) && AllAdmitted(txs, db) && Feasible(txs, plan)
    requires i < |txs| && plan[i] >= MAX_RETRIES && r < MAX_RETRIES
    ensures Live(txs, db, s) && InRound(txs, plan, s, r) && s.cursor == |txs|
  {
    var s0;
    if r == 0 {
      s0 := Start(txs, db);
    } else {
      var s' := RunPlan(txs, sorted, db, plan, i, r - 1);
      s0 := NextRound(txs, db, s', i);
    }
    var s1 := BeginRound(txs, db, plan, s0, r);
    s := JoinRest(txs, sorted, db, plan, s1, r);
  }

  lemma {:induction false} GiveUp(txs: Txs, db: Db, s: Run, i: nat) returns (s': Run)
    requires Live(txs, db, s) && s.cursor == |txs| && s.round == MAX_RETRIES - 1 && i < |txs| && !s.executed[i]
    ensures Reachable(txs, db, s') && s'.status == Finished(Some(FailedToConverge))
  {
    s' := Do(txs, db, s, EndRound);
  }

  lemma {:induction false} StallableFails(txs: Txs, sorted: seq<TxAccessList>, db: Db) returns (s: Run)
    requires RunsInOrder(txs, sorted, db) && AllAdmitted(txs, db) && Stallable(txs)
    ensures Reachable(txs, db, s) && s.status == Finished(Some(FailedToConverge))
  {
    var plan, i :| Feasible(txs, plan) && 0 <= i < |txs| && plan[i] >= MAX_RETRIES;
    var s0 := RunPlan(txs, sorted, db, plan, i, MAX_RETRIES - 1);
    s := GiveUp(txs, db, s0, i);
  }

  /**
   A block of admitted transfers that runs in index order can fail to converge exactly when it is
   stallable, which says nothing of schedules or of the database.
   */
  lemma StallsIff(txs: Txs, sorted: seq<TxAccessList>, db: Db)
    requires RunsInOrder(txs, sorted, db) && AllAdmitted(txs, db)
    ensures MayStall(txs, db) <==> Stallable(txs)
  {
    if MayStall(txs, db) {
      var steps :| AfterSteps(txs, db, steps).Some?
                   && AfterSteps(txs, db, steps).value.status == Finished(Some(FailedToConverge));
      FailureIsStall(txs, db, steps);
    }
    if Stallable(txs) {
      var s := StallableFails(txs, sorted, db);
      var steps :| AfterSteps(txs, db, steps) == Some(s);
    }
  }

  // ---------- which blocks are stallable ----------

  /** More than 20 transfers in ascending order, each of which writes something that all later ones read, are. */
  lemma {:induction false} EachHoldsBackAllLater(txs: Txs, ls: seq<Location>)
    requires Ascending(txs) && |ls| == |txs| > 20
    requires forall r :: 0 <= r < |txs| ==> Writes(txs[r], ls[r])
    requires forall r, i :: 0 <= r < i < |txs| ==> Reads(txs[i], ls[r])
    ensures Stallable(txs)
  {
    var plan := seq(|txs|, i => i);
    forall i, r: nat | 0 <= i < |txs| && r < plan[i] && r < 20 ensures WaitsIn(txs, plan, i, r) {
      assert HoldsBack(txs, plan, r, i, ls[r]);
    }
    assert Feasible(txs, plan) && plan[20] >= 20;
  }

  /** So are more than 20 in ascending order that all write and read one account, or one slot. */
  lemma {:induction false} CommonLocationStalls(txs: Txs, l: Location)
    requires Ascending(txs) && |txs| > 20 && forall t :: t in txs ==> Writes(t, l) && Reads(t, l)
    ensures Stallable(txs)
  {
    EachHoldsBackAllLater(txs, seq(|txs|, i => l));
  }

  ghost function Delayers(txs: Txs, t: TxAccessList): set<TxAccessList> {
    set h | h in txs && CanDelay(txs, h, t)
  }

  lemma DelayerIn(txs: Txs, plan: seq<nat>, i: nat, r: nat) returns (h: nat)
    requires |plan| == |txs| && i < |txs| && WaitsIn(txs, plan, i, r)
    ensures h < |txs| && plan[h] == r && txs[h] in Delayers(txs, txs[i])
  {
    var l;
    h, l :| 0 <= h < |txs| && plan[h] == r && HoldsBack(txs, plan, h, i, l);
    assert Feeds(txs[h], txs[i]);
  }

  /** Members of `hs` are planned for rounds before `r`. */
  ghost predicate PlannedBefore(txs: Txs, plan: seq<nat>, hs: set<TxAccessList>, r: nat)
    requires |plan| == |txs|
  {
    forall h :: 0 <= h < |txs| && txs[h] in hs ==> plan[h] < r
  }

  lemma OneMorePlanned(txs: Txs, plan: seq<nat>, hs: set<TxAccessList>, h: nat)
    requires DistinctIndices(txs) && |plan| == |txs| && h < |txs| && PlannedBefore(txs, plan, hs, plan[h])
    ensures |hs + {txs[h]}| == |hs| + 1 && PlannedBefore(txs, plan, hs + {txs[h]}, plan[h] + 1)
  {
  }

  lemma {:induction false} OneDelayerARound(txs: Txs, plan: seq<nat>, i: nat, r: nat) returns (hs: set<TxAccessList>)
    requires DistinctIndices(txs) && Feasible(txs, plan) && i < |txs| && r <= plan[i] && r <= MAX_RETRIES
    ensures |hs| == r && hs <= Delayers(txs, txs[i]) && PlannedBefore(txs, plan, hs, r)
  {
    if r == 0 {
      hs := {};
    } else {
      hs := OneDelayerARound(txs, plan, i, r - 1);
      var h := DelayerIn(txs, plan, i, r - 1);
      OneMorePlanned(txs, plan, hs, h);
      hs := hs + {txs[h]};
    }
  }

  /** A block in which no transfer can be delayed by 20 others is not stallable, so it always converges. */
  lemma {:induction false} FewDelayersConverge(txs: Txs)
    requires DistinctIndices(txs) && forall t :: t in txs ==> |Delayers(txs, t)| < 20
    ensures !Stallable(txs)
  {
    if Stallable(txs) {
      var plan, i :| Feasible(txs, plan) && 0 <= i < |txs| && plan[i] >= MAX_RETRIES;
      var hs := OneDelayerARound(txs, plan, i, MAX_RETRIES);
      assert txs[i] in txs;
      SubsetSize(hs, Delayers(txs, txs[i]));
    }
  }
}
