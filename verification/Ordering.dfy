/**
 Which reorderings of a list of transfers are harmless. The engines reorder: waves move deferred
 transfers to the back, optimistic commits happen out of index order.
 */
module Ordering {
  import opened Lists
  import opened Machine
  import opened State
  import opened Transfers

  /** Equal databases, or two failures (which transfer fails first may differ). */
  ghost predicate SameOutcome(r: Result<Db, ExecError>, q: Result<Db, ExecError>) {
    r.Ok? == q.Ok? && (r.Ok? ==> r.value == q.value)
  }

  ghost predicate DistinctIndices(txs: seq<TxAccessList>) {
    forall i, j :: 0 <= i < j < |txs| ==> txs[i].index != txs[j].index
  }

  /** `t` keeps the order `s` gives to every interfering pair. */
  ghost predicate KeepsInterferenceOrder(s: seq<TxAccessList>, t: seq<TxAccessList>) {
    forall x, y :: Precedes(s, x, y) && Interferes(x, y) ==> Precedes(t, x, y)
  }

  lemma MergeCommutes(st: map<Address, map<U256, U256>>, x: map<Address, map<U256, U256>>,
                      y: map<Address, map<U256, U256>>)
    requires forall a: Address :: SlotsAt(x, a).Keys !! SlotsAt(y, a).Keys
    ensures MergeStorage(MergeStorage(st, x), y) == MergeStorage(MergeStorage(st, y), x)
  {
    var l, r := MergeStorage(MergeStorage(st, x), y), MergeStorage(MergeStorage(st, y), x);
    assert l.Keys == r.Keys;
    forall a | a in l ensures l[a] == r[a] {
      UnionCommutes(SlotsAt(st, a), SlotsAt(x, a), SlotsAt(y, a));
      MergedSlots(st, x, a);
      MergedSlots(st, y, a);
    }
  }

  lemma MergedSlots(st: map<Address, map<U256, U256>>, x: map<Address, map<U256, U256>>, a: Address)
    ensures SlotsAt(MergeStorage(st, x), a) == SlotsAt(st, a) + SlotsAt(x, a)
  {
  }

  lemma DisjointWrites(t: TxAccessList, u: TxAccessList, a: Address)
    requires !SlotsMeet(t.writeSlots, u.writeSlots)
    ensures SlotsAt(SimulatedWrites(t), a).Keys !! SlotsAt(SimulatedWrites(u), a).Keys
  {
    forall slot | slot in SlotsAt(SimulatedWrites(t), a) && slot in SlotsAt(SimulatedWrites(u), a)
      ensures false
    {
      assert HasSlot(t.writeSlots, a, slot) && HasSlot(u.writeSlots, a, slot);
    }
  }

  lemma UnionCommutes(m: map<U256, U256>, x: map<U256, U256>, y: map<U256, U256>)
    requires x.Keys !! y.Keys
    ensures (m + x) + y == (m + y) + x
  {
  }

  /** A transfer that does not interfere leaves the other's two accounts alone. */
  lemma OthersAccounts(t: TxAccessList, u: TxAccessList, db: Db)
    requires !Interferes(t, u) && Admits(t, db)
    ensures AccountOf(Apply(t, db), u.sender) == AccountOf(db, u.sender)
    ensures AccountOf(Apply(t, db), u.recipient) == AccountOf(db, u.recipient)
  {
    ApplyLookups(t, db, u.sender, 0);
    ApplyLookups(t, db, u.recipient, 0);
  }

  lemma {:induction false} StorageCommutes(t: TxAccessList, u: TxAccessList, st: map<Address, map<U256, U256>>)
    requires !Interferes(t, u)
    ensures MergeStorage(MergeStorage(st, SimulatedWrites(t)), SimulatedWrites(u))
         == MergeStorage(MergeStorage(st, SimulatedWrites(u)), SimulatedWrites(t))
  {
    forall a: Address ensures SlotsAt(SimulatedWrites(t), a).Keys !! SlotsAt(SimulatedWrites(u), a).Keys {
      DisjointWrites(t, u, a);
    }
    MergeCommutes(st, SimulatedWrites(t), SimulatedWrites(u));
  }

  /** Storing two accounts, then two others. */
  lemma StoresCommute(m: map<Address, AccountWitness>, a: Address, b: Address, c: Address, d: Address,
                      w: AccountWitness, x: AccountWitness, y: AccountWitness, z: AccountWitness)
    requires a != c && a != d && b != c && b != d
    ensures m[a := w][b := x][c := y][d := z] == m[c := y][d := z][a := w][b := x]
  {
  }

  lemma {:induction false} ApplyCommutes(t: TxAccessList, u: TxAccessList, db: Db)
    requires !Interferes(t, u) && Admits(t, db)
    ensures Admits(u, Apply(t, db)) == Admits(u, db)
    ensures Admits(u, db) ==> Admits(t, Apply(u, db)) && Apply(u, Apply(t, db)) == Apply(t, Apply(u, db))
  {
    OthersAccounts(t, u, db);
    if Admits(u, db) {
      InterferesSymmetric(t, u);
      OthersAccounts(u, t, db);
      StorageCommutes(t, u, db.storage);
      StoresCommute(db.accounts, t.sender, t.recipient, u.sender, u.recipient,
                    Debited(t, AccountOf(db, t.sender)), Credited(t, AccountOf(db, t.recipient)),
                    Debited(u, AccountOf(db, u.sender)), Credited(u, AccountOf(db, u.recipient)));
    }
  }

  lemma SwapFront(t: TxAccessList, u: TxAccessList, rest: seq<TxAccessList>, db: Db)
    requires !Interferes(t, u)
    ensures SameOutcome(Serial([t, u] + rest, db), Serial([u, t] + rest, db))
  {
    assert ([t, u] + rest)[1..] == [u] + rest && ([u] + rest)[1..] == rest;
    assert ([u, t] + rest)[1..] == [t] + rest && ([t] + rest)[1..] == rest;
    if Admits(t, db) { ApplyCommutes(t, u, db); }
    if Admits(u, db) { InterferesSymmetric(t, u); ApplyCommutes(u, t, db); }
  }

  lemma InterferesSymmetric(t: TxAccessList, u: TxAccessList)
    ensures Interferes(t, u) == Interferes(u, t)
  {
  }

  /** A transfer that interferes with nothing before it may be run first. */
  lemma {:induction false} MoveToFront(t: seq<TxAccessList>, p: nat, db: Db)
    requires p < |t|
    requires forall q :: 0 <= q < p ==> !Interferes(t[q], t[p])
    ensures SameOutcome(Serial(t, db), Serial([t[p]] + RemoveAt(t, p), db))
  {
    if p == 0 {
      assert [t[0]] + RemoveAt(t, 0) == t;
    } else {
      var u, x := t[0], t[p];
      var moved := RemoveAt(t[1..], p - 1);
      assert [x] + RemoveAt(t, p) == [x, u] + moved;
      if Admits(u, db) {
        MoveToFront(t[1..], p - 1, Apply(u, db));
        assert ([u, x] + moved)[1..] == [x] + moved;
      }
      SwapFront(u, x, moved, db);
    }
  }

  lemma PrecedesOnce(t: seq<TxAccessList>, p: nat, q: nat)
    requires DistinctIndices(t) && p < |t| && q < |t| && Precedes(t, t[p], t[q])
    ensures p < q
  {
  }

  lemma OnlyOneWay(txs: seq<TxAccessList>, x: TxAccessList, y: TxAccessList)
    requires DistinctIndices(txs) && Precedes(txs, x, y)
    ensures !Precedes(txs, y, x)
  {
  }

  lemma RemoveKeepsOrder(t: seq<TxAccessList>, p: nat, x: TxAccessList, y: TxAccessList)
    requires p < |t| && x != t[p] && y != t[p] && Precedes(t, x, y)
    ensures Precedes(RemoveAt(t, p), x, y)
  {
    var i, j :| 0 <= i < j < |t| && t[i] == x && t[j] == y;
    var t' := RemoveAt(t, p);
    var i', j' := if i < p then i else i - 1, if j < p then j else j - 1;
    assert t'[i'] == x && t'[j'] == y;
  }

  /** The tails of two lists left after taking the head of the first out of both. */
  lemma TailsKeepOrder(s: seq<TxAccessList>, t: seq<TxAccessList>, p: nat)
    requires DistinctIndices(s) && s != [] && p < |t| && t[p] == s[0]
    requires KeepsInterferenceOrder(s, t)
    ensures KeepsInterferenceOrder(s[1..], RemoveAt(t, p))
  {
    forall x, y | Precedes(s[1..], x, y) && Interferes(x, y)
      ensures Precedes(RemoveAt(t, p), x, y)
    {
      var i, j :| 0 <= i < j < |s[1..]| && s[1..][i] == x && s[1..][j] == y;
      assert s[i + 1] == x && s[j + 1] == y;
      RemoveKeepsOrder(t, p, x, y);
    }
  }

  lemma HeadIsFree(s: seq<TxAccessList>, t: seq<TxAccessList>, p: nat, q: nat)
    requires multiset(s) == multiset(t) && DistinctIndices(s) && DistinctIndices(t)
    requires KeepsInterferenceOrder(s, t)
    requires s != [] && q < p < |t| && t[p] == s[0]
    ensures !Interferes(t[q], t[p])
  {
    assert t[q] in multiset(s);
    var j :| 0 <= j < |s| && s[j] == t[q];
    assert Precedes(s, s[0], s[j]);
    InterferesSymmetric(t[q], t[p]);
    if Interferes(s[0], s[j]) { PrecedesOnce(t, p, q); }
  }

  /**
   The order theorem: two orders of the same transfers that agree on every interfering pair both
   succeed with one database, or both fail.
   */
  lemma {:induction false} OrderTheorem(s: seq<TxAccessList>, t: seq<TxAccessList>, db: Db)
    requires multiset(s) == multiset(t) && DistinctIndices(s) && DistinctIndices(t)
    requires KeepsInterferenceOrder(s, t)
    ensures SameOutcome(Serial(s, db), Serial(t, db))
    decreases |s|
  {
    if s == [] {
      assert |multiset(t)| == 0;
    } else {
      var x := s[0];
      var p := FindHead(s, t);
      forall q | 0 <= q < p ensures !Interferes(t[q], t[p]) { HeadIsFree(s, t, p, q); }
      MoveToFront(t, p, db);
      var t' := RemoveAt(t, p);
      TailsKeepOrder(s, t, p);
      assert [x] + RemoveAt(t, p) == [x] + t';
      assert ([x] + t')[1..] == t';
      if Admits(x, db) {
        OrderTheorem(s[1..], t', Apply(x, db));
      }
    }
  }
}
