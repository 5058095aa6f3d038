/**
 Saga orchestrator committees and the quorum of signatures behind an intent
 (crates/consensus/src/sync_committee.rs).
 */
module Committee {
  import opened Machine
  import opened State
  import opened Scale
  import opened Election
  import opened FirstFit

  type Did = string

  datatype Peer = Peer(keyType: nat, publicKey: Bytes)

  /** The registry's address book, the DID resolver and the signature check, whose answers are not ours to decide. */
  datatype Identities = Identities(
    didOf: Address -> Option<Did>,
    resolve: Did -> Option<Peer>,
    verifySignature: (Peer, B256, Bytes, bool) -> bool)

  datatype SagaIntent = SagaIntent(
    intentId: B256,
    sender: Address,
    recipient: Address,
    amount: U256,
    expiresAt: u64,
    orchestratorSignatures: seq<(Address, Bytes)>)

  datatype CommitteeError = FailedToLock | NoEligible | EmptyCommittee | Unresolvable | BadSignature | QuorumNotMet

  /** `f64::ceil`, on the reals. */
  function Ceiling(x: real): (r: int)
    ensures (r - 1) as real < x <= r as real
  {
    -(-x).Floor
  }

  /** The quorum, n times the threshold rounded up; the cast to `usize` saturates at both ends. */
  function Quorum(n: nat, threshold: real): usize {
    var votes := Ceiling(n as real * threshold);
    if votes < 0 then 0 else if votes >= TWO_64 then TWO_64 - 1 else votes
  }

  // ---------- the committee ----------

  /** What `select_orchestrators` reads in the registry: the configured threshold and the eligible pool. */
  datatype Registry = Registry(committeeThreshold: real, eligible: (u64, real) -> set<Address>)

  class SagaOrchestratorCommittee {
    var epoch: u64
    var orchestrators: set<Address>
    var threshold: real
    const minOrchestratorMerit: real

    constructor (configured: Option<real>)
      ensures epoch == 0 && orchestrators == {} && minOrchestratorMerit == 0.05
      ensures threshold == if configured.Some? then configured.value else 0.67
    {
      epoch, orchestrators, minOrchestratorMerit := 0, {}, 0.05;
      threshold := if configured.Some? then configured.value else 0.67;
    }

    /** `registry` is `None` when its lock is poisoned. */
    method SelectOrchestrators(manifoldId: u64, newEpoch: u64, size: nat, registry: Option<Registry>, hash: Hash)
      returns (r: Result<(), CommitteeError>)
      modifies this
      ensures epoch == newEpoch
      ensures registry.None? ==> r == Err(FailedToLock) && threshold == old(threshold)
      ensures registry.Some? ==> threshold == registry.value.committeeThreshold
      ensures r.Err? ==> orchestrators == old(orchestrators)
      ensures registry.Some? ==>
                var pool := registry.value.eligible(manifoldId, minOrchestratorMerit);
                var key := ElectionKey(hash, ElectionSeed(hash, manifoldId, newEpoch));
                && (pool == {} ==> r == Err(NoEligible))
                && (pool != {} ==> r == Ok(()) && orchestrators <= pool && |orchestrators| == Min(|pool|, size)
                                   && LeastHashes(orchestrators, pool, hash, manifoldId, newEpoch))
                && (pool != {} && DistinctKeys(pool, key) ==> orchestrators == Elected(pool, key, size))
    {
      epoch := newEpoch;
      if registry.None? { return Err(FailedToLock); }
      threshold := registry.value.committeeThreshold;
      var pool := registry.value.eligible(manifoldId, minOrchestratorMerit);
      if pool == {} { return Err(NoEligible); }
      var election := new SnowSubsetElection(manifoldId);
      var elected := election.TriggerElection(pool, newEpoch, size, hash);
      orchestrators := election.currentSubset;
      r := Ok(());
    }
  }

  // ---------- the ballot ----------

  datatype Ballot = Ignored | Refused(error: CommitteeError) | Counted

  /** What one listed signature amounts to. */
  function BallotOf(entry: (Address, Bytes), intent: B256, members: set<Address>, ids: Identities, pq: bool): Ballot {
    if entry.0 !in members || ids.didOf(entry.0).None? then Ignored
    else
      var peer := ids.resolve(ids.didOf(entry.0).value);
      if peer.None? then Refused(Unresolvable)
      else if !ids.verifySignature(peer.value, intent, entry.1, pq) then Refused(BadSignature)
      else Counted
  }

  function Voters(intent: SagaIntent, members: set<Address>, ids: Identities, pq: bool): set<Address> {
    set e | e in intent.orchestratorSignatures && BallotOf(e, intent.intentId, members, ids, pq).Counted? :: e.0
  }

  ghost predicate NoneRefused(intent: SagaIntent, members: set<Address>, ids: Identities, pq: bool) {
    forall e :: e in intent.orchestratorSignatures ==> !BallotOf(e, intent.intentId, members, ids, pq).Refused?
  }

  /** No listed member fails its check, and enough distinct members have signed. */
  ghost predicate Accepts(intent: SagaIntent, members: set<Address>, threshold: real, ids: Identities, pq: bool) {
    && members != {}
    && NoneRefused(intent, members, ids, pq)
    && |Voters(intent, members, ids, pq)| >= Quorum(|members|, threshold)
  }

  /** A listed signature whose signer's DID does not resolve, or resolves to a key under which it does not verify. */
  ghost predicate Fails(e: (Address, Bytes), intentId: B256, ids: Identities, pq: bool) {
    match ids.didOf(e.0)
    case None => false
    case Some(did) =>
      match ids.resolve(did)
      case None => true
      case Some(peer) => !ids.verifySignature(peer, intentId, e.1, pq)
  }

  /** Nothing that fails is passed over: the first failure of a member decides the error. */
  ghost predicate FirstFailureDecides(intent: SagaIntent, members: set<Address>, ids: Identities, pq: bool,
                                      r: Result<(), CommitteeError>)
  {
    var listed := intent.orchestratorSignatures;
    && (r == Err(Unresolvable) || r == Err(BadSignature) <==>
          exists i :: 0 <= i < |listed| && listed[i].0 in members && Fails(listed[i], intent.intentId, ids, pq))
    && (r.Ok? ==> forall e :: e in listed && e.0 in members ==> !Fails(e, intent.intentId, ids, pq))
    && forall i :: 0 <= i < |listed| && listed[i].0 in members && Fails(listed[i], intent.intentId, ids, pq)
                   && (forall j :: 0 <= j < i && listed[j].0 in members ==> !Fails(listed[j], intent.intentId, ids, pq))
         ==> r == Err(if ids.resolve(ids.didOf(listed[i].0).value).None? then Unresolvable else BadSignature)
  }

  lemma FailsMeansRefused(e: (Address, Bytes), intentId: B256, members: set<Address>, ids: Identities, pq: bool)
    ensures BallotOf(e, intentId, members, ids, pq).Refused? <==> e.0 in members && Fails(e, intentId, ids, pq)
  {
  }

  lemma NoFailure(intent: SagaIntent, members: set<Address>, ids: Identities, pq: bool,
                  r: Result<(), CommitteeError>)
    requires NoneRefused(intent, members, ids, pq) && (r.Ok? || r == Err(QuorumNotMet))
    ensures FirstFailureDecides(intent, members, ids, pq, r)
  {
    forall e | e in intent.orchestratorSignatures && e.0 in members ensures !Fails(e, intent.intentId, ids, pq) {
      FailsMeansRefused(e, intent.intentId, members, ids, pq);
    }
  }

  lemma FailureAt(intent: SagaIntent, members: set<Address>, ids: Identities, pq: bool, i: nat)
    requires i < |intent.orchestratorSignatures|
    requires NoneRefused(intent.(orchestratorSignatures := intent.orchestratorSignatures[..i]), members, ids, pq)
    requires BallotOf(intent.orchestratorSignatures[i], intent.intentId, members, ids, pq).Refused?
    ensures var ballot := BallotOf(intent.orchestratorSignatures[i], intent.intentId, members, ids, pq);
            FirstFailureDecides(intent, members, ids, pq, Err(ballot.error))
  {
    var listed := intent.orchestratorSignatures;
    FailsMeansRefused(listed[i], intent.intentId, members, ids, pq);
    forall j | 0 <= j < i && listed[j].0 in members ensures !Fails(listed[j], intent.intentId, ids, pq) {
      assert listed[j] in listed[..i];
      FailsMeansRefused(listed[j], intent.intentId, members, ids, pq);
    }
  }

  /**
   The registry lock is taken twice: `configured` is what the first read finds, `ids` what the
   second one does, and either is `None` when the lock is poisoned by then.
   */
  method VerifyConsensus(intent: SagaIntent, committee: SagaOrchestratorCommittee, pq: bool,
                         configured: Option<real>, ids: Option<Identities>)
    returns (r: Result<(), CommitteeError>)
    ensures committee.orchestrators == {} ==> r == Err(EmptyCommittee)
    ensures committee.orchestrators != {} && ids.None? ==> r == Err(FailedToLock)
    ensures ids.Some? ==>
              var threshold := if configured.Some? then configured.value else committee.threshold;
              r.Ok? <==> Accepts(intent, committee.orchestrators, threshold, ids.value, pq)
    ensures ids.Some? && committee.orchestrators != {} ==>
              (r == Err(QuorumNotMet) <==>
               && NoneRefused(intent, committee.orchestrators, ids.value, pq)
               && !r.Ok?)
    ensures ids.Some? && committee.orchestrators != {}
            && !NoneRefused(intent, committee.orchestrators, ids.value, pq) ==>
              FirstRefusal(intent, committee.orchestrators, ids.value, pq, r)
    ensures ids.Some? && committee.orchestrators != {} ==>
              FirstFailureDecides(intent, committee.orchestrators, ids.value, pq, r)
  {
    var members := committee.orchestrators;
    if members == {} { return Err(EmptyCommittee); }
    var threshold := if configured.Some? then configured.value else committee.threshold;
    var requiredQuorum := Quorum(|members|, threshold);
    var validVotes: set<Address> := {};
    if ids.None? { return Err(FailedToLock); }
    var listed := intent.orchestratorSignatures;
    var i := 0;
    while i < |listed|
      invariant 0 <= i <= |listed|
      invariant validVotes == Voters(intent.(orchestratorSignatures := listed[..i]), members, ids.value, pq)
      invariant NoneRefused(intent.(orchestratorSignatures := listed[..i]), members, ids.value, pq)
    {
      var (addr, sig) := listed[i];
      assert listed[..i + 1] == listed[..i] + [listed[i]];
      VotersAppend(intent.(orchestratorSignatures := listed[..i]), listed[i], members, ids.value, pq);
      if addr in members {
        var did := ids.value.didOf(addr);
        if did.Some? {
          var peer := ids.value.resolve(did.value);
          if peer.None? {
            FailureAt(intent, members, ids.value, pq, i);
            return Err(Unresolvable);
          }
          if !ids.value.verifySignature(peer.value, intent.intentId, sig, pq) {
            FailureAt(intent, members, ids.value, pq, i);
            return Err(BadSignature);
          }
          validVotes := validVotes + {addr};
        }
      }
      i := i + 1;
    }
    assert listed[..i] == listed;
    NoFailure(intent, members, ids.value, pq, Ok(()));
    NoFailure(intent, members, ids.value, pq, Err(QuorumNotMet));
    if |validVotes| < requiredQuorum { return Err(QuorumNotMet); }
    r := Ok(());
  }

  /** The error is that of the first listed signature that fails its check. */
  ghost predicate FirstRefusal(intent: SagaIntent, members: set<Address>, ids: Identities, pq: bool,
                               r: Result<(), CommitteeError>)
  {
    var listed := intent.orchestratorSignatures;
    exists i :: 0 <= i < |listed|
             && NoneRefused(intent.(orchestratorSignatures := listed[..i]), members, ids, pq)
             && BallotOf(listed[i], intent.intentId, members, ids, pq).Refused?
             && r == Err(BallotOf(listed[i], intent.intentId, members, ids, pq).error)
  }

  lemma VotersAppend(intent: SagaIntent, e: (Address, Bytes), members: set<Address>, ids: Identities, pq: bool)
    ensures var more := intent.(orchestratorSignatures := intent.orchestratorSignatures + [e]);
            && Voters(more, members, ids, pq) == Voters(intent, members, ids, pq)
                 + (if BallotOf(e, intent.intentId, members, ids, pq).Counted? then {e.0} else {})
            && (NoneRefused(more, members, ids, pq)
                <==> NoneRefused(intent, members, ids, pq) && !BallotOf(e, intent.intentId, members, ids, pq).Refused?)
  {
    var more := intent.(orchestratorSignatures := intent.orchestratorSignatures + [e]);
    forall x ensures x in more.orchestratorSignatures <==> x in intent.orchestratorSignatures || x == e {
    }
    assert Voters(more, members, ids, pq) == Voters(intent, members, ids, pq)
           + (if BallotOf(e, intent.intentId, members, ids, pq).Counted? then {e.0} else {});
  }

  // ---------- what acceptance means ----------

  /**
   An accepted intent has a set of at least `n * threshold` distinct committee members each of
   whom has a listed signature that verifies under the key its own DID resolves to.
   */
  lemma AcceptedIsBacked(intent: SagaIntent, members: set<Address>, threshold: real, ids: Identities, pq: bool)
    requires Accepts(intent, members, threshold, ids, pq) && |members| < TWO_64 - 1
    ensures var voters := Voters(intent, members, ids, pq);
            && voters <= members
            && |voters| as real >= |members| as real * threshold
            && forall v :: v in voters ==> exists sig ::
                 && (v, sig) in intent.orchestratorSignatures
                 && ids.didOf(v).Some?
                 && ids.resolve(ids.didOf(v).value).Some?
                 && ids.verifySignature(ids.resolve(ids.didOf(v).value).value, intent.intentId, sig, pq)
  {
    var voters := Voters(intent, members, ids, pq);
    SubsetSize(voters, members);
    forall v | v in voters ensures exists sig ::
        && (v, sig) in intent.orchestratorSignatures
        && ids.didOf(v).Some?
        && ids.resolve(ids.didOf(v).value).Some?
        && ids.verifySignature(ids.resolve(ids.didOf(v).value).value, intent.intentId, sig, pq)
    {
      var e :| e in intent.orchestratorSignatures && BallotOf(e, intent.intentId, members, ids, pq).Counted?
                 && e.0 == v;
      assert (v, e.1) in intent.orchestratorSignatures;
    }
  }

  /** The signatures listed for members that have a DID. */
  ghost predicate SameMemberSignatures(x: SagaIntent, y: SagaIntent, members: set<Address>, ids: Identities) {
    && x.intentId == y.intentId
    && forall e: (Address, Bytes) :: e.0 in members && ids.didOf(e.0).Some? ==>
         (e in x.orchestratorSignatures <==> e in y.orchestratorSignatures)
  }

  /** Repeats, outsiders and the order of the list make no difference to the verdict. */
  lemma ListingIsImmaterial(x: SagaIntent, y: SagaIntent, members: set<Address>, threshold: real,
                            ids: Identities, pq: bool)
    requires SameMemberSignatures(x, y, members, ids)
    ensures Voters(x, members, ids, pq) == Voters(y, members, ids, pq)
    ensures Accepts(x, members, threshold, ids, pq) <==> Accepts(y, members, threshold, ids, pq)
  {
    forall e: (Address, Bytes) | !BallotOf(e, x.intentId, members, ids, pq).Ignored?
      ensures e in x.orchestratorSignatures <==> e in y.orchestratorSignatures
    {
    }
    assert Voters(x, members, ids, pq) == Voters(y, members, ids, pq);
  }

  /** A further signature undoes an acceptance exactly when it is a member's and fails its check. */
  lemma OneMoreSignature(intent: SagaIntent, e: (Address, Bytes), members: set<Address>, threshold: real,
                         ids: Identities, pq: bool)
    requires Accepts(intent, members, threshold, ids, pq)
    ensures Accepts(intent.(orchestratorSignatures := intent.orchestratorSignatures + [e]), members, threshold, ids, pq)
       <==> !(e.0 in members && Fails(e, intent.intentId, ids, pq))
  {
    FailsMeansRefused(e, intent.intentId, members, ids, pq);
    VotersAppend(intent, e, members, ids, pq);
    var more := intent.(orchestratorSignatures := intent.orchestratorSignatures + [e]);
    SubsetSize(Voters(intent, members, ids, pq), Voters(more, members, ids, pq));
  }

  /** Where no member's signature fails, those who count are the members listed that have a DID. */
  function Signers(intent: SagaIntent, members: set<Address>, ids: Identities): set<Address> {
    set e | e in intent.orchestratorSignatures && e.0 in members && ids.didOf(e.0).Some? :: e.0
  }

  /** The quorum, exactly: without a failure an intent is accepted if and only if at least n * threshold have signed. */
  lemma {:induction false} QuorumExact(intent: SagaIntent, members: set<Address>, threshold: real, ids: Identities,
                                       pq: bool)
    requires members != {} && |members| < TWO_64 - 1
    requires forall e :: e in intent.orchestratorSignatures && e.0 in members ==> !Fails(e, intent.intentId, ids, pq)
    ensures Accepts(intent, members, threshold, ids, pq)
       <==> |Signers(intent, members, ids)| as real >= |members| as real * threshold
  {
    forall e | e in intent.orchestratorSignatures
      ensures !BallotOf(e, intent.intentId, members, ids, pq).Refused?
      ensures BallotOf(e, intent.intentId, members, ids, pq).Counted? <==> e.0 in members && ids.didOf(e.0).Some?
    {
      FailsMeansRefused(e, intent.intentId, members, ids, pq);
    }
    assert Voters(intent, members, ids, pq) == Signers(intent, members, ids);
    SubsetSize(Signers(intent, members, ids), members);
    QuorumReached(|members|, threshold, |Signers(intent, members, ids)|);
  }

  lemma QuorumReached(n: nat, threshold: real, votes: nat)
    requires votes <= n < TWO_64 - 1
    ensures votes >= Quorum(n, threshold) <==> votes as real >= n as real * threshold
  {
    var share := n as real * threshold;
    assert Ceiling(share) <= votes <==> share <= votes as real;
  }

  // ---------- quorum intersection ----------

  lemma Overlap<T>(v: set<T>, w: set<T>, all: set<T>)
    requires v <= all && w <= all
    ensures |v * w| >= |v| + |w| - |all|
  {
    assert |v + w| == |v| + |w| - |v * w|;
    SubsetSize(v + w, all);
  }

  /**
   Any two acceptances by one committee share a voter once their thresholds add up to more than
   one, so whenever both are above one half; the intents, lists and registries may differ. The
   bound on the committee is the one at which the cast of the quorum to `usize` saturates.
   */
  lemma AcceptancesShareVoter(x: SagaIntent, y: SagaIntent, members: set<Address>, s: real, t: real,
                              xids: Identities, yids: Identities, xpq: bool, ypq: bool)
    requires Accepts(x, members, s, xids, xpq) && Accepts(y, members, t, yids, ypq)
    requires s + t > 1.0 && |members| < TWO_64 - 1
    ensures Voters(x, members, xids, xpq) * Voters(y, members, yids, ypq) != {}
  {
    AcceptedIsBacked(x, members, s, xids, xpq);
    AcceptedIsBacked(y, members, t, yids, ypq);
    var v, w := Voters(x, members, xids, xpq), Voters(y, members, yids, ypq);
    SharesExceedWhole(|members|, s, t, |v|, |w|);
    Overlap(v, w, members);
  }

  lemma SharesExceedWhole(n: nat, s: real, t: real, v: nat, w: nat)
    requires n > 0 && s + t > 1.0 && v as real >= n as real * s && w as real >= n as real * t
    ensures v + w > n
  {
    ScaleAbove(n as real, t, 1.0 - s, w as real);
    ScaleRest(n as real, s, v as real);
  }

  lemma ScaleAbove(n: real, t: real, c: real, w: real)
    requires n > 0.0 && t > c && w >= n * t
    ensures w > n * c
  {
  }

  lemma ScaleRest(n: real, s: real, v: real)
    requires v >= n * s
    ensures n * (1.0 - s) >= n - v
  {
  }

  ghost predicate AllMeet(members: set<Address>, quorum: nat) {
    forall v: set<Address>, w: set<Address> ::
      v <= members && w <= members && |v| >= quorum && |w| >= quorum ==> v * w != {}
  }

  lemma {:induction false} SubsetOfSize(s: set<Address>, k: nat) returns (t: set<Address>)
    requires k <= |s|
    ensures t <= s && |t| == k
  {
    if k == 0 {
      t := {};
    } else {
      var a :| a in s;
      var rest := SubsetOfSize(s - {a}, k - 1);
      t := rest + {a};
    }
  }

  /** Every two quorums meet exactly when the quorum is more than half the committee. */
  lemma QuorumsMeetIff(members: set<Address>, quorum: nat)
    ensures AllMeet(members, quorum) <==> 2 * quorum > |members|
  {
    if 2 * quorum > |members| {
      forall v: set<Address>, w: set<Address> | v <= members && w <= members && |v| >= quorum && |w| >= quorum
        ensures v * w != {}
      {
        Overlap(v, w, members);
      }
    } else {
      var v := SubsetOfSize(members, quorum);
      var w := SubsetOfSize(members - v, quorum);
      assert v * w == {};
    }
  }

  ghost predicate Majority(n: nat, threshold: real) {
    2 * Quorum(n, threshold) > n
  }

  /** A threshold makes every two quorums of every committee meet exactly when it is above one half. */
  lemma ThresholdAboveHalfIff(threshold: real)
    ensures (forall n: nat :: 0 < n < TWO_64 - 1 ==> Majority(n, threshold)) <==> threshold > 0.5
  {
    if threshold > 0.5 {
      forall n: nat | 0 < n < TWO_64 - 1 ensures Majority(n, threshold) {
        var q := Quorum(n, threshold);
        if q < TWO_64 - 1 { SharesExceedWhole(n, threshold, threshold, q, q); }
      }
    } else {
      assert !Majority(2, threshold);
    }
  }

  // ---------- across one change of the pool ----------

  /**
   When one validator joins the pool, an acceptance by the committee elected before and one by the
   committee elected after still share a voter, as long as their quorums exceed together
   one more than the number elected before.
   */
  lemma {:induction false} AcceptancesAcrossPoolChange(x: SagaIntent, y: SagaIntent, pool: set<Address>,
                                                       joined: Address, key: Address -> int, size: nat,
                                                       s: real, t: real, xids: Identities, yids: Identities,
                                                       xpq: bool, ypq: bool)
    requires joined !in pool && DistinctKeys(pool + {joined}, key)
    requires Accepts(x, Elected(pool, key, size), s, xids, xpq)
    requires Accepts(y, Elected(pool + {joined}, key, size), t, yids, ypq)
    requires Quorum(|Elected(pool, key, size)|, s) + Quorum(|Elected(pool + {joined}, key, size)|, t)
           > Min(|pool|, size) + 1
    ensures Voters(x, Elected(pool, key, size), xids, xpq)
          * Voters(y, Elected(pool + {joined}, key, size), yids, ypq) != {}
  {
    var before, after := Elected(pool, key, size), Elected(pool + {joined}, key, size);
    ElectionStable(pool, key, size, joined);
    ElectedCount(pool, key, size);
    SubsetSize(before + after, before + {joined});
    Overlap(Voters(x, before, xids, xpq), Voters(y, after, yids, ypq), before + after);
  }

  // ---------- the life of an intent ----------

  /** `timeout` is `None` when the registry lock is poisoned. */
  function WaitOf(timeout: Option<u64>): u64 {
    if timeout.Some? then timeout.value else 86400
  }

  function NewIntent(intentId: B256, sender: Address, recipient: Address, amount: U256, now: u64, timeout: Option<u64>)
    : (intent: SagaIntent)
    ensures intent.intentId == intentId && intent.sender == sender && intent.recipient == recipient
    ensures intent.amount == amount && intent.orchestratorSignatures == []
  {
    SagaIntent(intentId, sender, recipient, amount,
               WrappingAdd64(now, WaitOf(timeout)), [])
  }

  predicate IsExpired(intent: SagaIntent, now: u64) {
    now > intent.expiresAt
  }

  ghost predicate LivesFrom(intent: SagaIntent, now: u64, wait: u64) {
    forall t: u64 :: now <= t <= now + wait ==> !IsExpired(intent, t)
  }

  /** An intent lives through its whole timeout exactly when the expiry time does not wrap. */
  lemma LivesItsTimeoutIff(intentId: B256, sender: Address, recipient: Address, amount: U256, now: u64,
          timeout: Option<u64>)
    ensures var wait := if timeout.Some? then timeout.value else 86400;
            LivesFrom(NewIntent(intentId, sender, recipient, amount, now, timeout), now, wait) <==> now + wait < TWO_64
    ensures var wait, intent := if timeout.Some? then timeout.value else 86400,
                                NewIntent(intentId, sender, recipient, amount, now, timeout);
            now + wait + 1 < TWO_64 ==> IsExpired(intent, now + wait + 1)
  {
    var intent := NewIntent(intentId, sender, recipient, amount, now, timeout);
    if now + WaitOf(timeout) >= TWO_64 {
      assert IsExpired(intent, now);
    }
  }
}
