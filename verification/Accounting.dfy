/**
 What a run adds up to, account by account: nonces, balances, the last writer of each slot, and the
 total balance. Transfers are commutative in their effect on accounts, though not in whether they
 are accepted, nor in their effect on storage.
 */
module Accounting {
  import opened Lists
  import opened Machine
  import opened State
  import opened Transfers
  import opened Ordering

  datatype Quantity = Sends | Debits | Credits

  /** What a transfer contributes to an account. A transfer to oneself is stored as a plain credit. */
  function Amount(q: Quantity, tx: TxAccessList, a: Address): nat {
    match q
    case Sends => if a == tx.sender && a != tx.recipient then 1 else 0
    case Debits => if a == tx.sender && a != tx.recipient then tx.value else 0
    case Credits => if a == tx.recipient then tx.value else 0
  }

  function Total(q: Quantity, txs: seq<TxAccessList>, a: Address): nat {
    if txs == [] then 0 else Amount(q, txs[0], a) + Total(q, txs[1..], a)
  }

  lemma {:induction false} TotalConcat(q: Quantity, s: seq<TxAccessList>, t: seq<TxAccessList>, a: Address)
    ensures Total(q, s + t, a) == Total(q, s, a) + Total(q, t, a)
  {
    if s == [] {
      assert s + t == t;
    } else {
      assert (s + t)[1..] == s[1..] + t;
      TotalConcat(q, s[1..], t, a);
    }
  }

  lemma {:induction false} TotalRemove(q: Quantity, s: seq<TxAccessList>, p: nat, a: Address)
    requires p < |s|
    ensures Total(q, s, a) == Amount(q, s[p], a) + Total(q, RemoveAt(s, p), a)
  {
    TotalConcat(q, s[..p], s[p..], a);
    TotalConcat(q, s[..p], s[p + 1..], a);
    assert s == s[..p] + s[p..] && s[p..][1..] == s[p + 1..];
  }

  lemma {:induction false} TotalPermutation(q: Quantity, s: seq<TxAccessList>, t: seq<TxAccessList>, a: Address)
    requires multiset(s) == multiset(t)
    ensures Total(q, s, a) == Total(q, t, a)
    decreases |s|
  {
    if s == [] {
      assert |multiset(t)| == 0;
    } else {
      var p := FindHead(s, t);
      TotalPermutation(q, s[1..], RemoveAt(t, p), a);
      TotalRemove(q, t, p, a);
    }
  }

  // ---------- accounts after a run ----------

  ghost predicate Congruent(x: int, y: int) {
    (x - y) % TWO_256 == 0
  }

  lemma CongruentAdd(x: int, y: int, x': int, y': int)
    requires Congruent(x, y) && Congruent(x', y')
    ensures Congruent(x + x', y + y')
  {
    assert x + x' - (y + y') == (x - y) + (x' - y');
  }

  lemma CongruentCancel(x: int, y: int, k: int)
    requires Congruent(x + k, y + k)
    ensures Congruent(x, y)
  {
    assert x + k - (y + k) == x - y;
  }

  lemma ModuloAbsorbs(x: nat, y: nat)
    ensures (x % TWO_64 + y) % TWO_64 == (x + y) % TWO_64
  {
  }

  /** A nonce that many transfers later. */
  function Advanced(nonce: u64, sends: nat): u64 {
    (nonce + sends) % TWO_64
  }

  lemma AdvancedTwice(nonce: u64, s: nat, t: nat)
    ensures Advanced(Advanced(nonce, s), t) == Advanced(nonce, s + t)
  {
    ModuloAbsorbs(nonce + s, t);
  }

  /** `after` is `before` with the given totals applied, modulo the machine widths. */
  ghost predicate Posted(before: AccountWitness, after: AccountWitness, sends: nat, debits: nat, credits: nat) {
    && after.nonce == Advanced(before.nonce, sends)
    && Congruent(after.balance + debits, before.balance + credits)
    && after == before.(balance := after.balance, nonce := after.nonce)
  }

  lemma WrittenPosted(tx: TxAccessList, a: Address, before: AccountWitness)
    requires Touches(tx, a)
    requires a == tx.sender ==> Rejection(tx, before).None?
    ensures Posted(before, Written(tx, a, before), Amount(Sends, tx, a), Amount(Debits, tx, a), Amount(Credits, tx, a))
  {
  }

  lemma PostedCompose(x: AccountWitness, y: AccountWitness, z: AccountWitness,
                      s: nat, d: nat, c: nat, s': nat, d': nat, c': nat)
    requires Posted(x, y, s, d, c) && Posted(y, z, s', d', c')
    ensures Posted(x, z, s + s', d + d', c + c')
  {
    AdvancedTwice(x.nonce, s, s');
    CongruentAdd(y.balance + d, x.balance + c, z.balance + d', y.balance + c');
    CongruentCancel(z.balance + (d + d'), x.balance + (c + c'), y.balance);
  }

  lemma ApplyPosts(tx: TxAccessList, db: Db, a: Address)
    requires Admits(tx, db)
    ensures Posted(AccountOf(db, a), AccountOf(Apply(tx, db), a),
                   Amount(Sends, tx, a), Amount(Debits, tx, a), Amount(Credits, tx, a))
  {
    ApplyLookups(tx, db, a, 0);
    if Touches(tx, a) { WrittenPosted(tx, a, AccountOf(db, a)); }
  }

  /** The ledger of a successful run. */
  lemma {:induction false} SerialPosts(txs: seq<TxAccessList>, db: Db, a: Address)
    requires Serial(txs, db).Ok?
    ensures Posted(AccountOf(db, a), AccountOf(Serial(txs, db).value, a),
                   Total(Sends, txs, a), Total(Debits, txs, a), Total(Credits, txs, a))
  {
    if txs != [] {
      SerialPosts(txs[1..], Apply(txs[0], db), a);
      PostsBefore(txs[0], db, AccountOf(Serial(txs, db).value, a), a,
                  Total(Sends, txs[1..], a), Total(Debits, txs[1..], a), Total(Credits, txs[1..], a));
    }
  }

  lemma PostsBefore(t: TxAccessList, db: Db, after: AccountWitness, a: Address, s: nat, d: nat, c: nat)
    requires Admits(t, db) && Posted(AccountOf(Apply(t, db), a), after, s, d, c)
    ensures Posted(AccountOf(db, a), after, Amount(Sends, t, a) + s, Amount(Debits, t, a) + d,
                   Amount(Credits, t, a) + c)
  {
    ApplyPosts(t, db, a);
    PostedCompose(AccountOf(db, a), AccountOf(Apply(t, db), a), after,
                  Amount(Sends, t, a), Amount(Debits, t, a), Amount(Credits, t, a), s, d, c);
  }

  lemma PostedUnique(x: AccountWitness, y: AccountWitness, z: AccountWitness, s: nat, d: nat, c: nat)
    requires Posted(x, y, s, d, c) && Posted(x, z, s, d, c)
    ensures y == z
  {
  }

  /** Any two orders of the same transfers that both succeed leave every account the same. */
  lemma AccountsConfluent(s: seq<TxAccessList>, t: seq<TxAccessList>, db: Db, a: Address)
    requires multiset(s) == multiset(t) && Serial(s, db).Ok? && Serial(t, db).Ok?
    ensures AccountOf(Serial(s, db).value, a) == AccountOf(Serial(t, db).value, a)
  {
    SerialPosts(s, db, a);
    SerialPosts(t, db, a);
    forall q: Quantity ensures Total(q, s, a) == Total(q, t, a) { TotalPermutation(q, s, t, a); }
    PostedUnique(AccountOf(db, a), AccountOf(Serial(s, db).value, a), AccountOf(Serial(t, db).value, a),
                 Total(Sends, s, a), Total(Debits, s, a), Total(Credits, s, a));
  }

  /**
   Nonce discipline: in a successful run every transfer carries the nonce its sender has reached,
   counting the earlier transfers of that sender (to others) one each.
   */
  lemma NonceDiscipline(txs: seq<TxAccessList>, db: Db, k: nat)
    requires Serial(txs, db).Ok? && k < |txs|
    ensures txs[k].nonce == Advanced(AccountOf(db, txs[k].sender).nonce, Total(Sends, txs[..k], txs[k].sender))
  {
    assert txs == txs[..k] + txs[k..];
    SerialConcat(txs[..k], txs[k..], db);
    SerialHead(txs[k..], Serial(txs[..k], db).value);
    SerialPosts(txs[..k], db, txs[k].sender);
  }

  lemma SerialHead(txs: seq<TxAccessList>, db: Db)
    requires txs != [] && Serial(txs, db).Ok?
    ensures AccountOf(db, txs[0].sender).nonce == txs[0].nonce
  {
  }

  // ---------- ledgers compared ----------

  lemma SameNonce(base: u64, included: nat, missed: nat)
    requires Advanced(base, included) == Advanced(base, included + missed) && missed < TWO_64
    ensures missed == 0
  {
  }

  lemma SameBalance(x: int, y: int, missed: nat)
    requires Congruent(x, y) && Congruent(x, y + missed) && missed < TWO_256
    ensures missed == 0
  {
    assert (x - y) - (x - (y + missed)) == missed;
    CongruentAdd(x, y, y + missed, x) by {
      assert y + missed - x == -(x - (y + missed));
      NegateCongruent(x, y + missed);
    }
    assert x + (y + missed) - (y + x) == missed;
  }

  lemma NegateCongruent(x: int, y: int)
    requires Congruent(x, y)
    ensures Congruent(y, x)
  {
  }

  /** Two ledgers of one account: what the longer one adds is nothing. */
  lemma LedgersAgree(x: AccountWitness, y: AccountWitness, s: nat, d: nat, c: nat, s': nat, d': nat, c': nat,
                     sends: nat, debits: nat, credits: nat)
    requires Posted(x, y, s, d, c) && Posted(x, y, sends, debits, credits)
    requires sends == s + s' && debits == d + d' && credits == c + c'
    requires s' < TWO_64 && c' < TWO_256 && (s' == 0 ==> d' == 0)
    ensures s' == 0 && c' == 0
  {
    SameNonce(x.nonce, s, s');
    SameBalance(y.balance + d, x.balance + c, c');
  }

  /** The sum of the values of a block. */
  function SumOfValues(txs: seq<TxAccessList>): nat {
    if txs == [] then 0 else SumOfValues(txs[..|txs| - 1]) + txs[|txs| - 1].value
  }

  lemma {:induction false} SumPermutation(s: seq<TxAccessList>, t: seq<TxAccessList>)
    requires multiset(s) == multiset(t)
    ensures SumOfValues(s) == SumOfValues(t)
    decreases |s|
  {
    if s == [] {
      assert |multiset(t)| == 0;
    } else {
      var p := FindHead(s, t);
      SumPermutation(s[1..], RemoveAt(t, p));
      SumRemove(s, 0);
      SumRemove(t, p);
      assert RemoveAt(s, 0) == s[1..];
    }
  }

  lemma {:induction false} SumRemove(s: seq<TxAccessList>, p: nat)
    requires p < |s|
    ensures SumOfValues(s) == s[p].value + SumOfValues(RemoveAt(s, p))
    decreases |s|
  {
    var n := |s| - 1;
    if p == n {
      assert RemoveAt(s, p) == s[..n];
    } else {
      SumRemove(s[..n], p);
      assert RemoveAt(s, p)[..n - 1] == RemoveAt(s[..n], p);
      assert RemoveAt(s, p)[n - 1] == s[n];
    }
  }

  // ---------- storage after a run ----------

  function LastWriter(txs: seq<TxAccessList>, a: Address, slot: U256): Option<TxAccessList> {
    if txs == [] then None
    else if WritesSlot(txs[|txs| - 1], a, slot) then Some(txs[|txs| - 1])
    else LastWriter(txs[..|txs| - 1], a, slot)
  }

  ghost predicate SameLastWriters(s: seq<TxAccessList>, t: seq<TxAccessList>) {
    forall a: Address, slot: U256 :: LastWriter(s, a, slot) == LastWriter(t, a, slot)
  }

  lemma {:induction false} SerialSlots(txs: seq<TxAccessList>, db: Db, a: Address, slot: U256)
    requires Serial(txs, db).Ok?
    ensures SlotOf(Serial(txs, db).value, a, slot) ==
            match LastWriter(txs, a, slot) case Some(t) => SlotValue(t, slot) case None => SlotOf(db, a, slot)
    decreases |txs|
  {
    if txs != [] {
      var n := |txs| - 1;
      assert txs == txs[..n] + [txs[n]];
      SerialConcat(txs[..n], [txs[n]], db);
      var mid := Serial(txs[..n], db).value;
      assert Serial([txs[n]], mid) == Ok(Apply(txs[n], mid));
      ApplyLookups(txs[n], mid, a, slot);
      SerialSlots(txs[..n], db, a, slot);
    }
  }

  /** What the last writer leaves in a slot: the slot's own key plus one more than the writer's index, wrapping. */
  lemma LastWriteStays(txs: seq<TxAccessList>, db: Db, a: Address, slot: U256, t: TxAccessList)
    requires Serial(txs, db).Ok? && LastWriter(txs, a, slot) == Some(t)
    ensures SlotOf(Serial(txs, db).value, a, slot) == (slot + (t.index + 1) % TWO_64) % TWO_256
  {
    SerialSlots(txs, db, a, slot);
  }

  lemma SlotValueInjective(t: TxAccessList, u: TxAccessList, slot: U256)
    requires SlotValue(t, slot) == SlotValue(u, slot)
    ensures t.index == u.index
  {
  }

  lemma {:induction false} LastWriterIn(txs: seq<TxAccessList>, a: Address, slot: U256)
    ensures match LastWriter(txs, a, slot)
            case Some(t) => t in txs && WritesSlot(t, a, slot)
            case None => forall t :: t in txs ==> !WritesSlot(t, a, slot)
  {
    if txs != [] {
      LastWriterIn(txs[..|txs| - 1], a, slot);
      assert forall t :: t in txs ==> t in txs[..|txs| - 1] || t == txs[|txs| - 1];
    }
  }

  lemma SameIndexSameTx(txs: seq<TxAccessList>, t: TxAccessList, u: TxAccessList)
    requires DistinctIndices(txs) && t in txs && u in txs && t.index == u.index
    ensures t == u
  {
  }

  /**
   When two orders of the same transfers both succeed, they agree on the whole state exactly when
   every slot has the same last writer in both.
   */
  lemma OrdersAgreeIffLastWritersAgree(s: seq<TxAccessList>, t: seq<TxAccessList>, db: Db)
    requires multiset(s) == multiset(t) && DistinctIndices(s)
    requires Serial(s, db).Ok? && Serial(t, db).Ok?
    ensures SameState(Serial(s, db).value, Serial(t, db).value)
       <==> SameLastWriters(s, t)
  {
    forall a: Address ensures AccountOf(Serial(s, db).value, a) == AccountOf(Serial(t, db).value, a) {
      AccountsConfluent(s, t, db, a);
    }
    var x, y := Serial(s, db).value, Serial(t, db).value;
    if SameState(x, y) {
      forall a: Address, slot: U256 ensures LastWriter(s, a, slot) == LastWriter(t, a, slot) {
        SlotsAgree(s, t, db, a, slot);
      }
    }
    if SameLastWriters(s, t) {
      forall a: Address, slot: U256 ensures SlotOf(x, a, slot) == SlotOf(y, a, slot) {
        SlotsAgree(s, t, db, a, slot);
      }
    }
  }

  lemma {:induction false} SlotsAgree(s: seq<TxAccessList>, t: seq<TxAccessList>, db: Db, a: Address, slot: U256)
    requires multiset(s) == multiset(t) && DistinctIndices(s)
    requires Serial(s, db).Ok? && Serial(t, db).Ok?
    ensures SlotOf(Serial(s, db).value, a, slot) == SlotOf(Serial(t, db).value, a, slot)
       <==> LastWriter(s, a, slot) == LastWriter(t, a, slot)
  {
    SerialSlots(s, db, a, slot);
    SerialSlots(t, db, a, slot);
    SameSlotSameWriter(s, t, a, slot);
  }

  lemma SameSlotSameWriter(s: seq<TxAccessList>, t: seq<TxAccessList>, a: Address, slot: U256)
    requires multiset(s) == multiset(t) && DistinctIndices(s)
    ensures LastWriter(s, a, slot).Some? == LastWriter(t, a, slot).Some?
    ensures LastWriter(s, a, slot).Some? ==>
              (LastWriter(s, a, slot) == LastWriter(t, a, slot)
               <==> SlotValue(LastWriter(s, a, slot).value, slot) == SlotValue(LastWriter(t, a, slot).value, slot))
  {
    LastWriterIn(s, a, slot);
    LastWriterIn(t, a, slot);
    assert forall x :: x in s <==> x in multiset(s);
    assert forall x :: x in t <==> x in multiset(t);
    if LastWriter(s, a, slot).Some? {
      var x, y := LastWriter(s, a, slot).value, LastWriter(t, a, slot).value;
      if SlotValue(x, slot) == SlotValue(y, slot) {
        SlotValueInjective(x, y, slot);
        SameIndexSameTx(s, x, y);
      }
    }
  }

  // ---------- the total balance ----------

  ghost function TotalBalance(m: map<Address, AccountWitness>): nat {
    if m == map[] then 0 else var a :| a in m; m[a].balance + TotalBalance(m - {a})
  }

  lemma {:induction false} TotalBalanceSplit(m: map<Address, AccountWitness>, a: Address)
    requires a in m
    ensures TotalBalance(m) == m[a].balance + TotalBalance(m - {a})
    decreases m
  {
    var b :| b in m && TotalBalance(m) == m[b].balance + TotalBalance(m - {b});
    if a != b {
      TotalBalanceSplit(m - {b}, a);
      TotalBalanceSplit(m - {a}, b);
      assert m - {a} - {b} == m - {b} - {a};
    }
  }

  lemma TotalBalanceUpdate(db: Db, a: Address, acc: AccountWitness)
    ensures TotalBalance(db.accounts[a := acc]) == TotalBalance(db.accounts) - AccountOf(db, a).balance + acc.balance
  {
    var m := db.accounts;
    TotalBalanceSplit(m[a := acc], a);
    assert m[a := acc] - {a} == m - {a};
    if a in m {
      TotalBalanceSplit(m, a);
    } else {
      assert m - {a} == m;
    }
  }

  lemma TwoBalances(db: Db, a: Address, b: Address)
    requires a != b
    ensures AccountOf(db, a).balance + AccountOf(db, b).balance <= TotalBalance(db.accounts)
  {
    var m := db.accounts;
    if a in m {
      TotalBalanceSplit(m, a);
      if b in m { TotalBalanceSplit(m - {a}, b); }
    } else if b in m {
      TotalBalanceSplit(m, b);
    }
  }

  /** What a transfer adds to the total: nothing, unless it goes from an account to itself. */
  function MintedBy(tx: TxAccessList): nat {
    if tx.sender == tx.recipient then tx.value else 0
  }

  function Minted(txs: seq<TxAccessList>): nat {
    if txs == [] then 0 else MintedBy(txs[0]) + Minted(txs[1..])
  }

  lemma ApplyConserves(tx: TxAccessList, db: Db)
    requires Admits(tx, db) && TotalBalance(db.accounts) + MintedBy(tx) < TWO_256
    ensures TotalBalance(Apply(tx, db).accounts) == TotalBalance(db.accounts) + MintedBy(tx)
    ensures AccountOf(Apply(tx, db), tx.recipient).balance == AccountOf(db, tx.recipient).balance + tx.value
  {
    var sender, recipient := AccountOf(db, tx.sender), AccountOf(db, tx.recipient);
    var debited := Debited(tx, sender);
    TotalBalanceUpdate(db, tx.sender, debited);
    var mid := db.(accounts := db.accounts[tx.sender := debited]);
    TotalBalanceUpdate(mid, tx.recipient, Credited(tx, recipient));
    if tx.sender == tx.recipient {
      OneBalance(db, tx.sender);
    } else {
      TwoBalances(db, tx.sender, tx.recipient);
    }
  }

  lemma OneBalance(db: Db, a: Address)
    ensures AccountOf(db, a).balance <= TotalBalance(db.accounts)
  {
    if a in db.accounts { TotalBalanceSplit(db.accounts, a); }
  }

  ghost predicate NoSelfTransfers(txs: seq<TxAccessList>) {
    forall i :: 0 <= i < |txs| ==> txs[i].sender != txs[i].recipient
  }

  lemma NoSelfTransfersPermuted(s: seq<TxAccessList>, t: seq<TxAccessList>)
    requires multiset(s) == multiset(t)
    ensures NoSelfTransfers(s) <==> NoSelfTransfers(t)
  {
    forall i | 0 <= i < |s| && NoSelfTransfers(t) ensures s[i].sender != s[i].recipient {
      assert s[i] in multiset(t);
    }
    forall i | 0 <= i < |t| && NoSelfTransfers(s) ensures t[i].sender != t[i].recipient {
      assert t[i] in multiset(s);
    }
  }

  /** A block mints nothing exactly when every transfer from an account to itself has the value 0. */
  lemma {:induction false} MintsNothingIff(txs: seq<TxAccessList>)
    ensures Minted(txs) == 0 <==> forall i :: 0 <= i < |txs| && txs[i].sender == txs[i].recipient ==> txs[i].value == 0
  {
    if txs != [] {
      MintsNothingIff(txs[1..]);
      assert forall i :: 0 <= i < |txs[1..]| ==> txs[1..][i] == txs[i + 1];
      assert forall i :: 0 < i < |txs| ==> txs[i] == txs[1..][i - 1];
    }
  }

  lemma {:induction false} MintedConcat(s: seq<TxAccessList>, t: seq<TxAccessList>)
    ensures Minted(s + t) == Minted(s) + Minted(t)
  {
    if s == [] {
      assert s + t == t;
    } else {
      assert (s + t)[1..] == s[1..] + t;
      MintedConcat(s[1..], t);
    }
  }

  lemma {:induction false} MintedPermutation(s: seq<TxAccessList>, t: seq<TxAccessList>)
    requires multiset(s) == multiset(t)
    ensures Minted(s) == Minted(t)
    decreases |s|
  {
    if s == [] {
      assert |multiset(t)| == 0;
    } else {
      var p := FindHead(s, t);
      MintedPermutation(s[1..], RemoveAt(t, p));
      MintedConcat(t[..p], t[p..]);
      MintedConcat(t[..p], t[p + 1..]);
      assert t == t[..p] + t[p..] && t[p..][1..] == t[p + 1..];
    }
  }

  /**
   Conservation: a successful run adds to the total exactly the values of the transfers from an
   account to itself, and no credit wraps: every balance is the exact integer ledger.
   */
  lemma {:induction false} SerialConserves(txs: seq<TxAccessList>, db: Db)
    requires Serial(txs, db).Ok? && TotalBalance(db.accounts) + Minted(txs) < TWO_256
    ensures TotalBalance(Serial(txs, db).value.accounts) == TotalBalance(db.accounts) + Minted(txs)
    ensures forall a: Address ::
              AccountOf(Serial(txs, db).value, a).balance + Total(Debits, txs, a)
              == AccountOf(db, a).balance + Total(Credits, txs, a)
  {
    if txs != [] {
      ApplyConserves(txs[0], db);
      SerialConserves(txs[1..], Apply(txs[0], db));
      forall a: Address
        ensures AccountOf(Apply(txs[0], db), a).balance + Amount(Debits, txs[0], a)
             == AccountOf(db, a).balance + Amount(Credits, txs[0], a)
      {
        ApplyLookups(txs[0], db, a, 0);
      }
    }
  }

  /** Short of a wrap, a successful run keeps the total exactly when all its self-transfers have the value 0. */
  lemma TotalKeptIff(txs: seq<TxAccessList>, db: Db)
    requires Serial(txs, db).Ok? && TotalBalance(db.accounts) + Minted(txs) < TWO_256
    ensures TotalBalance(Serial(txs, db).value.accounts) == TotalBalance(db.accounts)
       <==> forall i :: 0 <= i < |txs| && txs[i].sender == txs[i].recipient ==> txs[i].value == 0
  {
    SerialConserves(txs, db);
    MintsNothingIff(txs);
  }
}
