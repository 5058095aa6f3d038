/** `MvccState`: the multi-version store of the optimistic engine. */
module Mvcc {
  import opened Machine
  import opened State
  import opened Sorting

  datatype Version<T> = Version(writer: usize, val: T)

  /** A value together with the version it was read at. */
  datatype Read<T> = Read(version: usize, val: T)

  /** `usize::MAX`: read from the backing database. */
  const NO_VERSION: usize := TWO_64 - 1

  type Slot = (Address, U256)
  type Versions<T> = seq<Version<T>>

  datatype Store = Store(accounts: map<Address, Versions<AccountWitness>>, slots: map<Slot, Versions<U256>>)

  const EMPTY_STORE := Store(map[], map[])

  // ---------- one version list ----------

  function VersionsAt<K, T>(m: map<K, Versions<T>>, k: K): Versions<T> {
    if k in m then m[k] else []
  }

  /** The last version in the list with a writer below the reader. */
  function LatestBelow<T>(vs: Versions<T>, reader: nat): Option<Version<T>> {
    if vs == [] then None
    else if vs[|vs| - 1].writer < reader then Some(vs[|vs| - 1])
    else LatestBelow(vs[..|vs| - 1], reader)
  }

  function WriterKey<T>(): Version<T> -> int {
    (v: Version<T>) => v.writer
  }

  /** Overwrite the writer's version if it has one, else push and sort by writer. */
  function Put<T>(vs: Versions<T>, writer: usize, val: T): Versions<T> {
    if exists i :: 0 <= i < |vs| && vs[i].writer == writer
    then seq(|vs|, i requires 0 <= i < |vs| => if FirstBy(vs, writer, i) then Version(writer, val) else vs[i])
    else SortBy(vs + [Version(writer, val)], WriterKey())
  }

  predicate FirstBy<T>(vs: Versions<T>, writer: usize, i: nat)
    requires i < |vs|
  {
    vs[i].writer == writer && forall j :: 0 <= j < i ==> vs[j].writer != writer
  }

  function Without<T(!new)>(vs: Versions<T>, writer: usize): (r: Versions<T>)
    ensures forall v :: v in r <==> v in vs && v.writer != writer
    ensures StrictlySorted(vs) ==> StrictlySorted(r)
  {
    if vs == [] then []
    else if vs[0].writer == writer then Without(vs[1..], writer)
    else [vs[0]] + Without(vs[1..], writer)
  }

  ghost predicate StrictlySorted<T>(vs: Versions<T>) {
    forall i, j :: 0 <= i < j < |vs| ==> vs[i].writer < vs[j].writer
  }

  ghost predicate HasWriter<T>(vs: Versions<T>, writer: usize) {
    exists i :: 0 <= i < |vs| && vs[i].writer == writer
  }

  // ---------- the whole store, as a value ----------

  function ReadAccount(store: Store, reader: usize, a: Address, backing: Db): Read<AccountWitness> {
    match LatestBelow(VersionsAt(store.accounts, a), reader)
    case Some(v) => Read(v.writer, v.val)
    case None => Read(NO_VERSION, AccountOf(backing, a))
  }

  function ReadSlot(store: Store, reader: usize, k: Slot, backing: Db): Read<U256> {
    match LatestBelow(VersionsAt(store.slots, k), reader)
    case Some(v) => Read(v.writer, v.val)
    case None => Read(NO_VERSION, SlotOf(backing, k.0, k.1))
  }

  function WriteAccount(store: Store, writer: usize, a: Address, acc: AccountWitness): Store {
    store.(accounts := store.accounts[a := Put(VersionsAt(store.accounts, a), writer, acc)])
  }

  function ClearWrites(store: Store, writer: usize): Store {
    Store(map a | a in store.accounts :: Without(store.accounts[a], writer),
          map k | k in store.slots :: Without(store.slots[k], writer))
  }

  /** Clearing removes the versions of one transaction, from every list, and nothing else. */
  lemma ClearRemoves(store: Store, writer: usize)
    ensures forall a, v ::
              v in VersionsAt(ClearWrites(store, writer).accounts, a)
              <==> v in VersionsAt(store.accounts, a) && v.writer != writer
    ensures forall k, v ::
              v in VersionsAt(ClearWrites(store, writer).slots, k)
              <==> v in VersionsAt(store.slots, k) && v.writer != writer
  {
    var cleared := ClearWrites(store, writer);
    forall a ensures VersionsAt(cleared.accounts, a) == Without(VersionsAt(store.accounts, a), writer) {
    }
    forall k ensures VersionsAt(cleared.slots, k) == Without(VersionsAt(store.slots, k), writer) {
    }
  }

  // ---------- the loops ----------

  /** Scans the versions from the last one back to the first whose writer is below the reader. */
  method ScanBack<T>(vs: Versions<T>, reader: usize) returns (found: Option<Version<T>>)
    ensures found == LatestBelow(vs, reader)
  {
    var i := |vs|;
    assert vs[..|vs|] == vs;
    while i > 0
      invariant 0 <= i <= |vs| && LatestBelow(vs[..i], reader) == LatestBelow(vs, reader)
    {
      i := i - 1;
      assert vs[..i + 1][..i] == vs[..i];
      if vs[i].writer < reader {
        return Some(vs[i]);
      }
    }
    found := None;
  }

  /** Overwrites the version of this writer where there is one; otherwise appends one and sorts the list. */
  method PutVersion<T>(vs: Versions<T>, writer: usize, val: T) returns (r: Versions<T>)
    ensures r == Put(vs, writer, val)
  {
    var pos := 0;
    while pos < |vs| && vs[pos].writer != writer
      invariant 0 <= pos <= |vs| && forall j :: 0 <= j < pos ==> vs[j].writer != writer
    {
      pos := pos + 1;
    }
    if pos < |vs| {
      r := vs[pos := Version(writer, val)];
      assert FirstBy(vs, writer, pos);
      assert forall i :: 0 <= i < |vs| ==> (FirstBy(vs, writer, i) <==> i == pos);
      assert r == Put(vs, writer, val);
    } else {
      r := SortBy(vs + [Version(writer, val)], WriterKey());
    }
  }

  class MvccState {
    var accounts: map<Address, Versions<AccountWitness>>
    var slots: map<Slot, Versions<U256>>

    function Contents(): Store
      reads this
    {
      Store(accounts, slots)
    }

    constructor ()
      ensures Contents() == EMPTY_STORE
    {
      accounts, slots := map[], map[];
    }

    method ReadAccountVersion(txIndex: usize, addr: Address, backing: Db) returns (r: Read<AccountWitness>)
      ensures r == ReadAccount(Contents(), txIndex, addr, backing)
    {
      if addr in accounts {
        var found := ScanBack(accounts[addr], txIndex);
        if found.Some? {
          return Read(found.value.writer, found.value.val);
        }
      }
      r := Read(NO_VERSION, AccountOf(backing, addr));
    }

    method ReadStorageVersion(txIndex: usize, k: Slot, backing: Db) returns (r: Read<U256>)
      ensures r == ReadSlot(Contents(), txIndex, k, backing)
    {
      if k in slots {
        var found := ScanBack(slots[k], txIndex);
        if found.Some? {
          return Read(found.value.writer, found.value.val);
        }
      }
      r := Read(NO_VERSION, SlotOf(backing, k.0, k.1));
    }

    method WriteAccountVersion(txIndex: usize, addr: Address, acc: AccountWitness)
      modifies this
      ensures accounts == old(accounts)[addr := Put(VersionsAt(old(accounts), addr), txIndex, acc)]
      ensures slots == old(slots)
    {
      var vs := PutVersion(VersionsAt(accounts, addr), txIndex, acc);
      accounts := accounts[addr := vs];
    }

    method WriteStorageVersion(txIndex: usize, k: Slot, val: U256)
      modifies this
      ensures slots == old(slots)[k := Put(VersionsAt(old(slots), k), txIndex, val)]
      ensures accounts == old(accounts)
    {
      var vs := PutVersion(VersionsAt(slots, k), txIndex, val);
      slots := slots[k := vs];
    }

    /** Retain, in every version list, the versions of other transactions. */
    method ClearTransaction(txIndex: usize)
      modifies this
      ensures Contents() == ClearWrites(old(Contents()), txIndex)
    {
      var addrs := accounts.Keys;
      while addrs != {}
        invariant slots == old(slots) && accounts.Keys == old(accounts).Keys && addrs <= accounts.Keys
        invariant forall a :: a in accounts ==>
                    accounts[a] == if a in addrs then old(accounts)[a] else Without(old(accounts)[a], txIndex)
        decreases addrs
      {
        var a :| a in addrs;
        accounts := accounts[a := Without(accounts[a], txIndex)];
        addrs := addrs - {a};
      }
      var keys := slots.Keys;
      while keys != {}
        invariant accounts == ClearWrites(old(Contents()), txIndex).accounts
        invariant slots.Keys == old(slots).Keys && keys <= slots.Keys
        invariant forall k :: k in slots ==>
                    slots[k] == if k in keys then old(slots)[k] else Without(old(slots)[k], txIndex)
        decreases keys
      {
        var k :| k in keys;
        slots := slots[k := Without(slots[k], txIndex)];
        keys := keys - {k};
      }
    }
  }

  // ---------- facts about version lists ----------

  lemma {:induction false} LatestBelowSorted<T>(vs: Versions<T>, reader: nat)
    requires StrictlySorted(vs)
    ensures match LatestBelow(vs, reader)
            case None => forall i :: 0 <= i < |vs| ==> vs[i].writer >= reader
            case Some(v) => v in vs && v.writer < reader
                            && forall i :: 0 <= i < |vs| && vs[i].writer < reader ==> vs[i].writer <= v.writer
  {
    if vs != [] {
      LatestBelowSorted(vs[..|vs| - 1], reader);
    }
  }

  lemma {:induction false} InsertKeepsWriters<T>(vs: Versions<T>, x: Version<T>, w: usize)
    ensures HasWriter(InsertBy(x, vs, WriterKey()), w) <==> HasWriter(vs, w) || w == x.writer
  {
    if vs == [] || vs[|vs| - 1].writer <= x.writer {
      WriterAppend(vs, x, w);
    } else {
      var init, last := vs[..|vs| - 1], vs[|vs| - 1];
      assert vs == init + [last];
      InsertKeepsWriters(init, x, w);
      WriterAppend(init, last, w);
      WriterAppend(InsertBy(x, init, WriterKey()), last, w);
    }
  }

  lemma {:induction false} InsertKeepsSorted<T>(vs: Versions<T>, x: Version<T>)
    requires StrictlySorted(vs) && !HasWriter(vs, x.writer)
    ensures StrictlySorted(InsertBy(x, vs, WriterKey()))
  {
    if vs != [] && vs[|vs| - 1].writer > x.writer {
      var init, last := vs[..|vs| - 1], vs[|vs| - 1];
      assert vs == init + [last];
      WriterAppend(init, last, x.writer);
      InsertKeepsSorted(init, x);
      var r := InsertBy(x, init, WriterKey());
      forall i | 0 <= i < |r| ensures r[i].writer < last.writer {
        assert HasWriter(r, r[i].writer);
        InsertKeepsWriters(init, x, r[i].writer);
      }
    }
  }

  /** A reader sees the inserted version exactly when it is below the reader and above what it saw. */
  lemma {:induction false} InsertReads<T>(vs: Versions<T>, x: Version<T>, reader: nat)
    requires StrictlySorted(vs) && !HasWriter(vs, x.writer)
    ensures LatestBelow(InsertBy(x, vs, WriterKey()), reader) ==
              var seen := LatestBelow(vs, reader);
              if x.writer < reader && (seen.None? || seen.value.writer < x.writer) then Some(x) else seen
  {
    if vs == [] || vs[|vs| - 1].writer <= x.writer {
      assert (vs + [x])[..|vs|] == vs;
      LatestBelowSorted(vs, reader);
    } else {
      var init, last := vs[..|vs| - 1], vs[|vs| - 1];
      assert vs == init + [last];
      WriterAppend(init, last, x.writer);
      InsertReads(init, x, reader);
      var r := InsertBy(x, init, WriterKey());
      assert (r + [last])[..|r|] == r;
    }
  }

  lemma {:induction false} InsertVersion<T>(vs: Versions<T>, x: Version<T>)
    requires StrictlySorted(vs) && !HasWriter(vs, x.writer)
    ensures StrictlySorted(InsertBy(x, vs, WriterKey()))
    ensures forall w: usize :: HasWriter(InsertBy(x, vs, WriterKey()), w) <==> HasWriter(vs, w) || w == x.writer
    ensures forall reader: nat :: LatestBelow(InsertBy(x, vs, WriterKey()), reader) ==
              var seen := LatestBelow(vs, reader);
              if x.writer < reader && (seen.None? || seen.value.writer < x.writer) then Some(x) else seen
  {
    InsertKeepsSorted(vs, x);
    forall w: usize ensures HasWriter(InsertBy(x, vs, WriterKey()), w) <==> HasWriter(vs, w) || w == x.writer {
      InsertKeepsWriters(vs, x, w);
    }
    forall reader: nat
      ensures LatestBelow(InsertBy(x, vs, WriterKey()), reader) ==
                var seen := LatestBelow(vs, reader);
                if x.writer < reader && (seen.None? || seen.value.writer < x.writer) then Some(x) else seen
    {
      InsertReads(vs, x, reader);
    }
  }

  lemma WriterAppend<T>(vs: Versions<T>, x: Version<T>, w: usize)
    ensures HasWriter(vs + [x], w) <==> HasWriter(vs, w) || w == x.writer
  {
    if HasWriter(vs, w) {
      var i :| 0 <= i < |vs| && vs[i].writer == w;
      assert (vs + [x])[i].writer == w;
    }
    assert (vs + [x])[|vs|] == x;
  }

  /** Pushing a new writer's version and sorting is inserting it in its place. */
  lemma PutNew<T>(vs: Versions<T>, writer: usize, val: T)
    requires StrictlySorted(vs) && !HasWriter(vs, writer)
    ensures Put(vs, writer, val) == InsertBy(Version(writer, val), vs, WriterKey())
  {
    var x := Version(writer, val);
    assert (vs + [x])[..|vs|] == vs;
    SortByIdentity(vs, WriterKey());
  }

  lemma {:induction false} ReplaceInserted<T>(vs: Versions<T>, writer: usize, v0: T, v1: T)
    requires StrictlySorted(vs) && !HasWriter(vs, writer)
    ensures var r0 := InsertBy(Version(writer, v0), vs, WriterKey());
            var r1 := InsertBy(Version(writer, v1), vs, WriterKey());
            && |r0| == |r1|
            && forall i :: 0 <= i < |r0| ==> r1[i] == if r0[i].writer == writer then Version(writer, v1) else r0[i]
  {
    if vs != [] && vs[|vs| - 1].writer > writer {
      assert !HasWriter(vs[..|vs| - 1], writer);
      ReplaceInserted(vs[..|vs| - 1], writer, v0, v1);
    }
  }

  /** A second write by the same transaction replaces its first. */
  lemma PutTwice<T>(vs: Versions<T>, writer: usize, v0: T, v1: T)
    requires StrictlySorted(vs) && !HasWriter(vs, writer)
    ensures Put(Put(vs, writer, v0), writer, v1) == Put(vs, writer, v1)
  {
    PutNew(vs, writer, v0);
    PutNew(vs, writer, v1);
    InsertVersion(vs, Version(writer, v0));
    ReplaceInserted(vs, writer, v0, v1);
    var r0 := Put(vs, writer, v0);
    assert HasWriter(r0, writer);
    forall i | 0 <= i < |r0| ensures FirstBy(r0, writer, i) <==> r0[i].writer == writer {
    }
  }

  lemma {:induction false} WithoutAbsent<T(!new)>(vs: Versions<T>, writer: usize)
    requires !HasWriter(vs, writer)
    ensures Without(vs, writer) == vs
  {
    if vs != [] {
      assert vs[0].writer != writer;
      WithoutAbsent(vs[1..], writer);
    }
  }
}
