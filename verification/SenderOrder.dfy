/** When a reordering of a block still runs: the waves defer transfers, and a deferred nonce may come too late. */
module SenderOrder {
  import opened Lists
  import opened Machine
  import opened State
  import opened Transfers
  import opened Ordering
  import opened Accounting
  import opened Waves
  import opened FirstFit
  import opened WaveEngine
  import opened WaveRefinement
  import opened WaveClashes

  /** An accepted transfer to another account advances its sender's nonce; one to itself does not. */
  predicate Advances(t: TxAccessList) {
    t.sender != t.recipient
  }

  /** Two transfers of one sender, of which at least one advances its nonce: their order matters. */
  predicate SenderBound(x: TxAccessList, y: TxAccessList) {
    x.sender == y.sender && (Advances(x) || Advances(y))
  }

  /** Any two transfers of one sender, of which at least one advances its nonce, run in the order of `s`. */
  ghost predicate KeepsSenderOrder(r: seq<TxAccessList>, s: seq<TxAccessList>) {
    forall x, y :: Precedes(s, x, y) && SenderBound(x, y) ==> Precedes(r, x, y)
  }

  /** Each transfer is paid for by what its sender had at first and was credited before it. */
  ghost predicate Covered(txs: seq<TxAccessList>, db: Db) {
    forall k :: 0 <= k < |txs| ==>
      Total(Debits, txs[..k], txs[k].sender) + txs[k].value
      <= AccountOf(db, txs[k].sender).balance + Total(Credits, txs[..k], txs[k].sender)
  }

  /** Every sender can pay for all it sends, without any of the credits. */
  ghost predicate Funded(txs: seq<TxAccessList>, db: Db) {
    forall t :: t in txs ==> Total(Debits, txs, t.sender) + MintedBy(t) <= AccountOf(db, t.sender).balance
  }

  /** No balance of a sender can reach 2^256, whoever is credited. */
  ghost predicate NoOverflow(txs: seq<TxAccessList>, db: Db) {
    forall t :: t in txs ==> AccountOf(db, t.sender).balance + SumOfValues(txs) < TWO_256
  }

  // ---------- counting a sender's transfers ----------

  /** The transfers in the list that advance the nonce of `a`. */
  ghost function SendsOf(s: seq<TxAccessList>, a: Address): set<TxAccessList> {
    set t | t in s && t.sender == a && Advances(t)
  }

  lemma {:induction false} SendsCount(s: seq<TxAccessList>, a: Address)
    requires DistinctIndices(s)
    ensures Total(Sends, s, a) == |SendsOf(s, a)| <= |s|
  {
    if s != [] {
      IndicesCons(s);
      SendsCount(s[1..], a);
      assert s[0] !in s[1..];
      if s[0].sender == a && Advances(s[0]) {
        assert SendsOf(s, a) == SendsOf(s[1..], a) + {s[0]};
      } else {
        assert SendsOf(s, a) == SendsOf(s[1..], a);
      }
    }
  }

  lemma InPrefix(s: seq<TxAccessList>, p: nat, u: TxAccessList)
    requires DistinctIndices(s) && p < |s|
    ensures u in s[..p] <==> Precedes(s, u, s[p])
  {
    if u in s[..p] {
      var i :| 0 <= i < p && s[..p][i] == u;
      assert s[i] == u;
    }
    if Precedes(s, u, s[p]) {
      var i, j :| 0 <= i < j < |s| && s[i] == u && s[j] == s[p];
      assert j == p && s[..p][i] == u;
    }
  }

  lemma PrefixCount(s: seq<TxAccessList>, p: nat, a: Address)
    requires DistinctIndices(s) && p < |s|
    ensures Total(Sends, s[..p], a) == |SendsOf(s[..p], a)| <= p < TWO_64
  {
    SendsCount(s[..p], a);
    BlockLength(s);
  }

  /** `nonce` is `count` steps after `base`, and fewer than 2^64. */
  ghost predicate CountsTo(nonce: u64, base: u64, count: nat) {
    nonce == Advanced(base, count) && count < TWO_64
  }

  lemma SameCount(nonce: u64, base: u64, k: nat, l: nat)
    requires CountsTo(nonce, base, k) && CountsTo(nonce, base, l)
    ensures k == l
  {
  }

  /** The nonce of a transfer that ran counts its sender's transfers before it. */
  lemma {:induction false} NonceCounts(s: seq<TxAccessList>, db: Db, p: nat, t: TxAccessList)
    requires DistinctIndices(s) && Serial(s, db).Ok? && p < |s| && s[p] == t
    ensures CountsTo(t.nonce, AccountOf(db, t.sender).nonce, |SendsOf(s[..p], t.sender)|)
  {
    PrefixCount(s, p, t.sender);
    TotalNonce(s, db, p, t, Total(Sends, s[..p], t.sender));
  }

  lemma TotalNonce(s: seq<TxAccessList>, db: Db, p: nat, t: TxAccessList, count: nat)
    requires Serial(s, db).Ok? && p < |s| && s[p] == t && count == Total(Sends, s[..p], t.sender) < TWO_64
    ensures CountsTo(t.nonce, AccountOf(db, t.sender).nonce, count)
  {
    NonceDiscipline(s, db, p);
  }

  /** In two successful orders a transfer has the same number of its sender's transfers before it. */
  lemma {:induction false} CountsAgree(s: seq<TxAccessList>, r: seq<TxAccessList>, db: Db, p: nat, k: nat,
                                       t: TxAccessList)
    requires DistinctIndices(s) && DistinctIndices(r) && Serial(s, db).Ok? && Serial(r, db).Ok?
    requires p < |s| && k < |r| && s[p] == t == r[k]
    ensures |SendsOf(s[..p], t.sender)| == |SendsOf(r[..k], t.sender)|
  {
    NonceCounts(s, db, p, t);
    NonceCounts(r, db, k, t);
    SameCount(t.nonce, AccountOf(db, t.sender).nonce, |SendsOf(s[..p], t.sender)|, |SendsOf(r[..k], t.sender)|);
  }

  /** Of two transfers of one sender the later one has at least as many before it, more if the earlier one advances. */
  lemma CountsRise(s: seq<TxAccessList>, i: nat, j: nat, a: Address)
    requires DistinctIndices(s) && i < j < |s| && s[i].sender == a
    ensures |SendsOf(s[..j], a)| >= |SendsOf(s[..i], a)| + if Advances(s[i]) then 1 else 0
  {
    var early, late := SendsOf(s[..i], a), SendsOf(s[..j], a);
    forall u | u in early ensures u in late {
      InPrefix(s, i, u);
      var q :| 0 <= q < i && s[..i][q] == u;
      assert s[..j][q] == u;
    }
    if Advances(s[i]) {
      assert s[..j][i] == s[i];
      assert s[i] !in s[..i];
      SubsetSize(early + {s[i]}, late);
    } else {
      SubsetSize(early, late);
    }
  }

  lemma {:induction false} OkMeansSenderOrder(s: seq<TxAccessList>, r: seq<TxAccessList>, db: Db,
                                              x: TxAccessList, y: TxAccessList)
    requires DistinctIndices(s) && DistinctIndices(r) && multiset(s) == multiset(r)
    requires Serial(s, db).Ok? && Serial(r, db).Ok?
    requires Precedes(s, x, y) && SenderBound(x, y)
    ensures Precedes(r, x, y)
  {
    var i, j :| 0 <= i < j < |s| && s[i] == x && s[j] == y;
    assert s[i] in multiset(r) && s[j] in multiset(r);
    var k :| 0 <= k < |r| && r[k] == x;
    var l :| 0 <= l < |r| && r[l] == y;
    CountsAgree(s, r, db, i, k, x);
    CountsAgree(s, r, db, j, l, y);
    CountsRise(s, i, j, x.sender);
    assert k != l;
    if l < k { CountsRise(r, l, k, x.sender); }
  }

  // ---------- an order that keeps each sender's ----------

  lemma {:induction false} SumPrefix(s: seq<TxAccessList>, n: nat)
    requires n <= |s|
    ensures SumOfValues(s[..n]) <= SumOfValues(s)
  {
    if n == |s| {
      assert s[..n] == s;
    } else {
      SumPrefix(s[..|s| - 1], n);
      assert s[..|s| - 1][..n] == s[..n];
    }
  }

  lemma SamePredecessors(s: seq<TxAccessList>, r: seq<TxAccessList>, p: nat, k: nat)
    requires DistinctIndices(s) && DistinctIndices(r) && multiset(s) == multiset(r) && KeepsSenderOrder(r, s)
    requires p < |s| && k < |r| && s[p] == r[k]
    ensures SendsOf(s[..p], s[p].sender) == SendsOf(r[..k], s[p].sender)
  {
    var t := s[p];
    forall u: TxAccessList | u.sender == t.sender && Advances(u) ensures u in s[..p] <==> u in r[..k] {
      InPrefix(s, p, u);
      InPrefix(r, k, u);
      if u in r[..k] {
        assert u in multiset(s);
        var q :| 0 <= q < |s| && s[q] == u;
        if q >= p { LaterStaysLater(s, r, p, q, k); }
      }
    }
  }

  /** A transfer after `s[p]` cannot come before it in an order that keeps sender order. */
  lemma LaterStaysLater(s: seq<TxAccessList>, r: seq<TxAccessList>, p: nat, q: nat, k: nat)
    requires DistinctIndices(r) && KeepsSenderOrder(r, s)
    requires p <= q < |s| && k < |r| && s[p] == r[k] && s[q].sender == s[p].sender && Advances(s[q])
    ensures s[q] !in r[..k]
  {
    InPrefix(r, k, s[q]);
    if p < q {
      assert Precedes(s, s[p], s[q]);
      OnlyOneWay(r, s[p], s[q]);
    }
  }

  /** The nonce of an account after the first `k` transfers. */
  lemma NonceAfter(r: seq<TxAccessList>, db: Db, k: nat, a: Address)
    requires DistinctIndices(r) && k < |r| && Serial(r[..k], db).Ok?
    ensures CountsTo(AccountOf(Serial(r[..k], db).value, a).nonce, AccountOf(db, a).nonce, |SendsOf(r[..k], a)|)
  {
    SerialPosts(r[..k], db, a);
    PrefixCount(r, k, a);
  }

  /** While nothing can wrap, the ledger of an account is exact. */
  lemma {:induction false} ExactLedger(txs: seq<TxAccessList>, db: Db, a: Address)
    requires Serial(txs, db).Ok? && AccountOf(db, a).balance + SumOfValues(txs) < TWO_256
    ensures AccountOf(Serial(txs, db).value, a).balance + Total(Debits, txs, a)
            == AccountOf(db, a).balance + Total(Credits, txs, a)
  {
    if txs != [] {
      SumRemove(txs, 0);
      assert RemoveAt(txs, 0) == txs[1..];
      ApplyLookups(txs[0], db, a, 0);
      ExactLedger(txs[1..], Apply(txs[0], db), a);
    }
  }

  /** The balance a transfer meets is what its sender had at first, with the ledger of those before it. */
  lemma BalanceReached(s: seq<TxAccessList>, r: seq<TxAccessList>, db: Db, k: nat)
    requires multiset(s) == multiset(r) && NoOverflow(s, db) && k < |r| && Serial(r[..k], db).Ok?
    ensures AccountOf(Serial(r[..k], db).value, r[k].sender).balance + Total(Debits, r[..k], r[k].sender)
            == AccountOf(db, r[k].sender).balance + Total(Credits, r[..k], r[k].sender)
  {
    assert r[k] in multiset(s);
    SumPermutation(s, r);
    SumPrefix(r, k);
    ExactLedger(r[..k], db, r[k].sender);
  }

  /** The next transfer of such an order finds its nonce and enough balance. */
  lemma NextAdmitted(s: seq<TxAccessList>, r: seq<TxAccessList>, db: Db, k: nat)
    requires DistinctIndices(s) && DistinctIndices(r) && multiset(s) == multiset(r) && KeepsSenderOrder(r, s)
    requires Serial(s, db).Ok? && Covered(r, db) && NoOverflow(s, db)
    requires k < |r| && Serial(r[..k], db).Ok?
    ensures Admits(r[k], Serial(r[..k], db).value)
  {
    assert r[k] in multiset(s);
    var p :| 0 <= p < |s| && s[p] == r[k];
    NonceReached(s, r, db, p, k);
    BalanceReached(s, r, db, k);
  }

  /** An order that succeeds is covered. */
  lemma {:induction false} OkMeansCovered(s: seq<TxAccessList>, r: seq<TxAccessList>, db: Db, k: nat)
    requires multiset(s) == multiset(r) && NoOverflow(s, db) && Serial(r, db).Ok? && k < |r|
    ensures Total(Debits, r[..k], r[k].sender) + r[k].value
            <= AccountOf(db, r[k].sender).balance + Total(Credits, r[..k], r[k].sender)
  {
    assert r == r[..k] + r[k..];
    SerialConcat(r[..k], r[k..], db);
    BalanceReached(s, r, db, k);
  }

  lemma NonceReached(s: seq<TxAccessList>, r: seq<TxAccessList>, db: Db, p: nat, k: nat)
    requires p < |s| && k < |r| && s[p] == r[k] && Serial(s, db).Ok? && Serial(r[..k], db).Ok?
    requires DistinctIndices(s) && DistinctIndices(r) && multiset(s) == multiset(r) && KeepsSenderOrder(r, s)
    ensures AccountOf(Serial(r[..k], db).value, r[k].sender).nonce == r[k].nonce
  {
    SamePredecessors(s, r, p, k);
    NonceFrom(s, r, db, p, k);
  }

  lemma NonceFrom(s: seq<TxAccessList>, r: seq<TxAccessList>, db: Db, p: nat, k: nat)
    requires p < |s| && k < |r| && s[p] == r[k] && Serial(s, db).Ok? && Serial(r[..k], db).Ok?
    requires DistinctIndices(s) && DistinctIndices(r) && SendsOf(s[..p], s[p].sender) == SendsOf(r[..k], s[p].sender)
    ensures AccountOf(Serial(r[..k], db).value, r[k].sender).nonce == r[k].nonce
  {
    var t := r[k];
    NonceCounts(s, db, p, t);
    NonceAfter(r, db, k, t.sender);
    SameNonceReached(t.nonce, AccountOf(Serial(r[..k], db).value, t.sender).nonce, AccountOf(db, t.sender).nonce,
                     |SendsOf(s[..p], t.sender)|, |SendsOf(r[..k], t.sender)|);
  }

  lemma SameNonceReached(x: u64, y: u64, base: u64, k: nat, l: nat)
    requires CountsTo(x, base, k) && CountsTo(y, base, l) && k == l
    ensures x == y
  {
  }

  /** Funded senders are covered in every order. */
  lemma {:induction false} FundedIsCovered(s: seq<TxAccessList>, r: seq<TxAccessList>, db: Db)
    requires multiset(s) == multiset(r) && Funded(s, db)
    ensures Covered(r, db)
  {
    forall k | 0 <= k < |r|
      ensures Total(Debits, r[..k], r[k].sender) + r[k].value <= AccountOf(db, r[k].sender).balance
    {
      var a := r[k].sender;
      assert r[k] in multiset(s);
      TotalPermutation(Debits, s, r, a);
      TotalConcat(Debits, r[..k], r[k..], a);
      assert r == r[..k] + r[k..];
    }
  }

  lemma {:induction false} SenderOrderMeansOk(s: seq<TxAccessList>, r: seq<TxAccessList>, db: Db, n: nat)
    requires DistinctIndices(s) && DistinctIndices(r) && multiset(s) == multiset(r) && KeepsSenderOrder(r, s)
    requires Serial(s, db).Ok? && Covered(r, db) && NoOverflow(s, db) && n <= |r|
    ensures Serial(r[..n], db).Ok?
  {
    if n > 0 {
      SenderOrderMeansOk(s, r, db, n - 1);
      NextAdmitted(s, r, db, n - 1);
      assert r[..n] == r[..n - 1] + [r[n - 1]];
      SerialConcat(r[..n - 1], [r[n - 1]], db);
      assert [r[n - 1]][1..] == [];
    }
  }

  /**
   What reordering can break: given that one order of the transfers succeeds, another succeeds exactly
   when it keeps every sender's own transfers in that order and pays each before it is spent.
   */
  lemma {:induction false} ReorderedOkIff(s: seq<TxAccessList>, r: seq<TxAccessList>, db: Db)
    requires DistinctIndices(s) && multiset(s) == multiset(r) && Serial(s, db).Ok? && NoOverflow(s, db)
    ensures Serial(r, db).Ok? <==> KeepsSenderOrder(r, s) && Covered(r, db)
  {
    FlattenedDistinct(s, r);
    if Serial(r, db).Ok? {
      forall x, y | Precedes(s, x, y) && SenderBound(x, y) ensures Precedes(r, x, y) {
        OkMeansSenderOrder(s, r, db, x, y);
      }
      forall k | 0 <= k < |r|
        ensures Total(Debits, r[..k], r[k].sender) + r[k].value
                <= AccountOf(db, r[k].sender).balance + Total(Credits, r[..k], r[k].sender)
      {
        OkMeansCovered(s, r, db, k);
      }
    }
    if KeepsSenderOrder(r, s) && Covered(r, db) {
      SenderOrderMeansOk(s, r, db, |r|);
      assert r[..|r|] == r;
    }
  }

  // ---------- the wave engine against index order ----------

  /**
   When the wave engine fails where serial execution in index order succeeds, without clashes: exactly
   when some wave defers a transfer behind a later one of the same sender, or behind one it was to pay for.
   */
  lemma {:induction false} WavesOkIff(txs: seq<TxAccessList>, sorted: seq<TxAccessList>, db: Db)
    requires DistinctIndices(txs) && NoneClash(WavesOf(txs)) && multiset(sorted) == multiset(txs) && Ascending(sorted)
    requires Serial(sorted, db).Ok? && NoOverflow(sorted, db)
    ensures RunWaves(WavesOf(txs), db).error == None
       <==> KeepsSenderOrder(Flatten(WavesOf(txs)), sorted) && Covered(Flatten(WavesOf(txs)), db)
  {
    WavesAreSerial(WavesOf(txs), db);
    WavesCover(txs);
    ReorderedOkIff(sorted, Flatten(WavesOf(txs)), db);
  }

  lemma SumBelow(txs: seq<TxAccessList>, db: Db)
    requires NoOverflow(txs, db)
    ensures SumOfValues(txs) < TWO_256
  {
    if txs != [] { assert txs[0] in txs; }
  }

  lemma {:induction false} AgreementMeansNoClash(txs: seq<TxAccessList>, sorted: seq<TxAccessList>, db: Db)
    requires DistinctIndices(txs) && multiset(sorted) == multiset(txs) && Serial(sorted, db).Ok?
    requires NoOverflow(sorted, db)
    requires RunWaves(WavesOf(txs), db).error == None
    requires SameState(RunWaves(WavesOf(txs), db).db, Serial(sorted, db).value)
    ensures NoneClash(WavesOf(txs))
  {
    SumBelow(sorted, db);
    SumPermutation(sorted, txs);
    BlockSize(txs);
    SerialStateNoClash(WavesOf(txs), sorted, db);
  }

  /**
   When the wave engine agrees with serial execution in index order, on any block that such execution
   runs: exactly when no wave clashes, every sender's own transfers keep their order, each transfer is
   still covered, and each slot keeps its last writer. Whatever the access lists declare.
   */
  lemma {:induction false} WaveAgreesIff(txs: seq<TxAccessList>, sorted: seq<TxAccessList>, db: Db)
    requires DistinctIndices(txs) && multiset(sorted) == multiset(txs) && Ascending(sorted)
    requires Serial(sorted, db).Ok? && NoOverflow(sorted, db)
    ensures RunWaves(WavesOf(txs), db).error == None
            && SameState(RunWaves(WavesOf(txs), db).db, Serial(sorted, db).value)
       <==> NoneClash(WavesOf(txs)) && KeepsSenderOrder(Flatten(WavesOf(txs)), sorted)
            && Covered(Flatten(WavesOf(txs)), db) && SameLastWriters(Flatten(WavesOf(txs)), sorted)
  {
    var o := RunWaves(WavesOf(txs), db);
    if o.error == None && SameState(o.db, Serial(sorted, db).value) {
      AgreementMeansNoClash(txs, sorted, db);
    }
    if NoneClash(WavesOf(txs)) {
      WavesOkIff(txs, sorted, db);
      if o.error == None { WavesVersusIndexOrder(txs, sorted, db); }
    }
  }
}
