/** Blocks of 21 transfers that serial execution runs and a schedule of the optimistic engine gives up on. */
module PevmStallExamples {
  import opened Machine
  import opened State
  import opened Transfers
  import opened Accounting
  import opened WaveRefinement
  import opened Pevm
  import opened PevmConvergence
  import opened PevmSafeBlocks
  import opened PevmErrors
  import opened PevmStalls
  import opened PevmCounterexamples

  const PURSES := Db(map a: Address | 1 <= a <= 21 :: Holding(10), map[])

  /** Accounts 1 to 21 pay 5 each to account 0. */
  const PAYMENTS := seq(21, i requires 0 <= i < 21 => Pay(i, i + 1, 0, 5, 0))

  /** Accounts 1 to 21 pay 5 each to an account of their own choice, and all count in one slot. */
  const BOOKINGS := seq(21, i requires 0 <= i < 21 => Booking(i, i + 1, i + 101))

  function Booking(index: usize, sender: Address, recipient: Address): TxAccessList {
    Pay(index, sender, recipient, 5, 0).(readSlots := map[9 := {7}], writeSlots := map[9 := {7}])
  }

  /** Accounts 1 to 21 pay 5 each to an account of their own choice, and declare to read all 21 recipients. */
  const WATCHERS := seq(21, i requires 0 <= i < 21 => Watcher(i, i + 1, i + 101))

  function Watcher(index: usize, sender: Address, recipient: Address): TxAccessList {
    Pay(index, sender, recipient, 5, 0).(readAddresses := Recipients(21))
  }

  function Recipients(n: nat): (r: set<Address>)
    requires n <= 21
    ensures forall a: Address :: a in r <==> 101 <= a < 101 + n
  {
    if n == 0 then {} else Recipients(n - 1) + {100 + n}
  }

  /** Every transfer could go first, and none touches the sender of a later one. */
  ghost predicate UntouchedSenders(txs: seq<TxAccessList>, db: Db) {
    && (forall i :: 0 <= i < |txs| ==> Admits(txs[i], db))
    && (forall i, j :: 0 <= i < j < |txs| ==> !Touches(txs[i], txs[j].sender))
  }

  lemma {:induction false} UntouchedSendersRun(txs: seq<TxAccessList>, db: Db)
    requires UntouchedSenders(txs, db)
    ensures Serial(txs, db).Ok?
  {
    if txs != [] {
      forall i | 0 <= i < |txs[1..]| ensures Admits(txs[1..][i], Apply(txs[0], db)) {
        ApplyLookups(txs[0], db, txs[i + 1].sender, 0);
      }
      UntouchedSendersRun(txs[1..], Apply(txs[0], db));
    }
  }

  lemma {:induction false} SumOfFives(txs: seq<TxAccessList>)
    requires forall i :: 0 <= i < |txs| ==> txs[i].value == 5
    ensures SumOfValues(txs) == 5 * |txs|
  {
    if txs != [] { SumOfFives(txs[..|txs| - 1]); }
  }

  /** What the transfers of the two blocks have in common. */
  predicate PaysFive(t: TxAccessList, i: nat) {
    t.index == i && t.sender == i + 1 && t.value == 5 && t.nonce == 0 && (t.recipient == 0 || t.recipient > 21)
  }

  ghost predicate FivesInOrder(txs: seq<TxAccessList>) {
    |txs| == 21 && forall i :: 0 <= i < 21 ==> PaysFive(txs[i], i)
  }

  lemma PurseSuffices(t: TxAccessList, i: nat)
    requires PaysFive(t, i) && i < 21
    ensures Admits(t, PURSES) && AccountOf(PURSES, t.sender).balance == 10
  {
    assert t.sender in PURSES.accounts && PURSES.accounts[t.sender] == Holding(10);
  }

  lemma {:induction false} FivesRunInOrder(txs: seq<TxAccessList>)
    requires FivesInOrder(txs)
    ensures RunsInOrder(txs, txs, PURSES) && AllAdmitted(txs, PURSES)
  {
    forall i | 0 <= i < 21
      ensures Admits(txs[i], PURSES) && AccountOf(PURSES, txs[i].sender).balance == 10 && txs[i].value == 5
    {
      PurseSuffices(txs[i], i);
    }
    forall i, j | 0 <= i < j < 21 ensures !Touches(txs[i], txs[j].sender) && txs[i].index < txs[j].index {
      assert PaysFive(txs[i], i) && PaysFive(txs[j], j);
    }
    UntouchedSendersRun(txs, PURSES);
    SumOfFives(txs);
  }

  lemma {:induction false} GivesUp(txs: seq<TxAccessList>) returns (steps: seq<Step>, s: Run)
    requires FivesInOrder(txs) && Stallable(txs)
    ensures AfterSteps(txs, PURSES, steps) == Some(s) && s.status == Finished(Some(FailedToConverge))
    ensures Serial(txs, PURSES).Ok? && AllAdmitted(txs, PURSES)
  {
    FivesRunInOrder(txs);
    s := StallableFails(txs, txs, PURSES);
    steps :| AfterSteps(txs, PURSES, steps) == Some(s);
  }

  /**
   21 payments to one recipient, with every footprint declared: in each round all threads read first, and
   one commits.
   */
  lemma {:induction false} SharedRecipientStalls() returns (steps: seq<Step>, s: Run)
    ensures AfterSteps(PAYMENTS, PURSES, steps) == Some(s) && s.status == Finished(Some(FailedToConverge))
    ensures AllDeclared(PAYMENTS) && AllAdmitted(PAYMENTS, PURSES) && Serial(PAYMENTS, PURSES).Ok?
  {
    forall t | t in PAYMENTS ensures Writes(t, AccountAt(0)) && Reads(t, AccountAt(0)) && FootprintDeclared(t) {
    }
    CommonLocationStalls(PAYMENTS, AccountAt(0));
    steps, s := GivesUp(PAYMENTS);
  }

  ghost predicate AreBookings(txs: seq<TxAccessList>) {
    |txs| == 21 && forall i :: 0 <= i < 21 ==> txs[i] == Booking(i, i + 1, i + 101)
  }

  lemma BookingsShareNoAccount(txs: seq<TxAccessList>)
    requires AreBookings(txs)
    ensures SafeBlock(txs)
  {
    forall t, u | t in txs && u in txs && t.index < u.index ensures !ChangesUnder(t, u) {
    }
  }

  lemma {:induction false} BookingsStall(txs: seq<TxAccessList>)
    requires AreBookings(txs)
    ensures Stallable(txs)
  {
    forall t | t in txs ensures Writes(t, SlotAt((9, 7))) && Reads(t, SlotAt((9, 7))) {
      assert (9, 7) in SlotsRead(t);
    }
    CommonLocationStalls(txs, SlotAt((9, 7)));
  }

  /**
   21 transfers that share one slot and no account: a safe block, so all its Ok runs are serial, and a
   schedule that gives up on it.
   */
  lemma {:induction false} SafeButStalls() returns (steps: seq<Step>, s: Run)
    ensures AfterSteps(BOOKINGS, PURSES, steps) == Some(s) && s.status == Finished(Some(FailedToConverge))
    ensures SafeBlock(BOOKINGS) && AllAdmitted(BOOKINGS, PURSES) && Serial(BOOKINGS, PURSES).Ok?
  {
    BookingsShareNoAccount(BOOKINGS);
    BookingsStall(BOOKINGS);
    steps, s := GivesUp(BOOKINGS);
  }

  ghost predicate AreWatchers(txs: seq<TxAccessList>) {
    |txs| == 21 && forall i :: 0 <= i < 21 ==> txs[i] == Watcher(i, i + 1, i + 101)
  }

  lemma {:induction false} WatchersStall(txs: seq<TxAccessList>)
    requires AreWatchers(txs)
    ensures Stallable(txs)
  {
    WatchedBack(txs, seq(21, r requires 0 <= r < 21 => AccountAt(r + 101)));
  }

  lemma {:induction false} WatchedBack(txs: seq<TxAccessList>, ls: seq<Location>)
    requires AreWatchers(txs) && |ls| == 21 && forall r :: 0 <= r < 21 ==> ls[r] == AccountAt(r + 101)
    ensures Stallable(txs)
  {
    forall r, i | 0 <= r < i < |txs| ensures Reads(txs[i], ls[r]) {
      assert r + 101 in txs[i].readAddresses;
    }
    EachHoldsBackAllLater(txs, ls);
  }

  lemma {:induction false} WatchersApart(txs: seq<TxAccessList>)
    requires AreWatchers(txs)
    ensures AllDeclared(txs) && forall i, j :: 0 <= i < j < |txs| ==> !Interferes(txs[i], txs[j])
  {
  }

  /**
   21 transfers no two of which write an account or a slot in common: they are tied by declared reads
   only, and a schedule gives up on them.
   */
  lemma {:induction false} DeclaredReadsStall() returns (steps: seq<Step>, s: Run)
    ensures AfterSteps(WATCHERS, PURSES, steps) == Some(s) && s.status == Finished(Some(FailedToConverge))
    ensures forall i, j :: 0 <= i < j < |WATCHERS| ==> !Interferes(WATCHERS[i], WATCHERS[j])
    ensures AllDeclared(WATCHERS) && AllAdmitted(WATCHERS, PURSES) && Serial(WATCHERS, PURSES).Ok?
  {
    WatchersApart(WATCHERS);
    WatchersStall(WATCHERS);
    steps, s := GivesUp(WATCHERS);
  }
}
