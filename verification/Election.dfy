/** `SnowSubsetElection`: a deterministic sample of the validator pool, by keyed hash. */
module Election {
  import opened Lists
  import opened Machine
  import opened State
  import opened Scale
  import opened Sorting
  import opened FirstFit

  datatype ElectionError = NoValidators

  /** keccak-256, of which only its being a function matters here. */
  type Hash = Bytes -> B256

  function ElectionSeed(hash: Hash, manifoldId: u64, epoch: u64): B256 {
    hash(BigEndian(manifoldId, 8) + BigEndian(epoch, 8))
  }

  /** The sort key of a validator: hashes compare byte by byte, which is as big-endian integers. */
  function ElectionKey(hash: Hash, seed: B256): Address -> int {
    (a: Address) => FromBigEndian(hash(BigEndian(a, 20) + seed))
  }

  function SetOf<T>(s: seq<T>): set<T> {
    set x | x in s
  }

  /** `order` lists the set, each member once, in whatever order the hash set iterates. */
  ghost predicate Enumerates(order: seq<Address>, pool: set<Address>) {
    multiset(order) == multiset(pool)
  }

  /** Sort the listed pool by key and keep the first `size`. */
  function Sample(order: seq<Address>, key: Address -> int, size: nat): set<Address> {
    var sorted := SortBy(order, key);
    SetOf(sorted[..if |sorted| < size then |sorted| else size])
  }

  /** `x` sorts before `y` byte by byte: it is less at the first byte where they differ. */
  predicate SortsBefore(x: Bytes, y: Bytes) {
    exists i :: 0 <= i < |x| && i < |y| && x[i] < y[i] && x[..i] == y[..i]
  }

  /**
   Nobody left out hashes below anybody elected. The payload of a validator is its 20 bytes and then the
   32 bytes of the seed, the hash of the manifold's 8 bytes and the epoch's, all big-endian.
   */
  ghost predicate LeastHashes(elected: set<Address>, pool: set<Address>, hash: Hash, manifoldId: u64, epoch: u64) {
    var seed := hash(BigEndian(manifoldId, 8) + BigEndian(epoch, 8));
    forall v, w :: v in elected && w in pool && w !in elected ==>
      !SortsBefore(hash(BigEndian(w, 20) + seed), hash(BigEndian(v, 20) + seed))
  }

  method CollectSet(pool: set<Address>) returns (order: seq<Address>)
    ensures Enumerates(order, pool)
  {
    order := [];
    var rest := pool;
    while rest != {}
      invariant rest <= pool && multiset(order) + multiset(rest) == multiset(pool)
      decreases rest
    {
      var a :| a in rest;
      order, rest := order + [a], rest - {a};
    }
  }

  class SnowSubsetElection {
    var currentSubset: set<Address>
    const manifoldId: u64

    constructor (manifoldId: u64)
      ensures this.manifoldId == manifoldId && currentSubset == {}
    {
      this.manifoldId, currentSubset := manifoldId, {};
    }

    method TriggerElection(pool: set<Address>, epoch: u64, size: nat, hash: Hash) returns (r: Result<(), ElectionError>)
      modifies this
      ensures r.Err? <==> pool == {}
      ensures pool == {} ==> currentSubset == {}
      ensures var key := ElectionKey(hash, ElectionSeed(hash, manifoldId, epoch));
              && (pool != {} ==> exists order :: Enumerates(order, pool) && currentSubset == Sample(order, key, size))
              && (pool != {} && DistinctKeys(pool, key) ==> currentSubset == Elected(pool, key, size))
      ensures currentSubset <= pool && |currentSubset| == Min(|pool|, size)
      ensures LeastHashes(currentSubset, pool, hash, manifoldId, epoch)
    {
      if pool == {} {
        currentSubset := {};
        return Err(NoValidators);
      }
      var seed := ElectionSeed(hash, manifoldId, epoch);
      var key := ElectionKey(hash, seed);
      var validators := CollectSet(pool);
      currentSubset := Sample(validators, key, size);
      SampleHasLeast(validators, pool, hash, manifoldId, epoch, size);
      if DistinctKeys(pool, key) { SampleIsElected(validators, pool, key, size); }
      r := Ok(());
    }
  }

  // ---------- the least hashes are elected ----------

  lemma {:induction false} DigitsCompare(x: nat, y: nat, c: nat, d: nat)
    requires c < 256 && d < 256
    ensures 256 * x + c < 256 * y + d <==> x < y || (x == y && c < d)
  {
  }

  /** Big-endian integers of one width compare as their bytes do. */
  lemma {:induction false} BytesCompare(x: Bytes, y: Bytes)
    requires |x| == |y|
    ensures FromBigEndian(x) < FromBigEndian(y) <==> SortsBefore(x, y)
    ensures FromBigEndian(x) == FromBigEndian(y) <==> x == y
  {
    if x != [] {
      var n := |x| - 1;
      var x', y' := x[..n], y[..n];
      BytesCompare(x', y');
      DigitsCompare(FromBigEndian(x'), FromBigEndian(y'), x[n] as nat, y[n] as nat);
      DigitsCompare(FromBigEndian(y'), FromBigEndian(x'), y[n] as nat, x[n] as nat);
      assert x == x' + [x[n]] && y == y' + [y[n]];
      LastByteCompares(x, y);
    }
  }

  lemma LastByteCompares(x: Bytes, y: Bytes)
    requires |x| == |y| > 0
    ensures SortsBefore(x, y) <==>
            SortsBefore(x[..|x| - 1], y[..|y| - 1])
            || (x[..|x| - 1] == y[..|y| - 1] && x[|x| - 1] < y[|y| - 1])
  {
    var n := |x| - 1;
    if i :| 0 <= i < n && x[..n][i] < y[..n][i] && x[..n][..i] == y[..n][..i] {
      assert x[..i] == x[..n][..i] && y[..i] == y[..n][..i];
    }
    if i :| 0 <= i < |x| && x[i] < y[i] && x[..i] == y[..i] {
      if i < n { assert x[..n][..i] == x[..i] && y[..n][..i] == y[..i]; }
    }
  }

  lemma PrefixKeysLeast(order: seq<Address>, pool: set<Address>, key: Address -> int, size: nat, v: Address, w: Address)
    requires Enumerates(order, pool) && v in Sample(order, key, size) && w in pool && w !in Sample(order, key, size)
    ensures key(v) <= key(w)
  {
    var sorted := SortBy(order, key);
    SortBySorts(order, key);
    EnumerationFacts(sorted, pool);
    var n := if |sorted| < size then |sorted| else size;
    var i :| 0 <= i < n && sorted[..n][i] == v;
    var j :| 0 <= j < |sorted| && sorted[j] == w;
    assert forall k :: 0 <= k < n ==> sorted[..n][k] == sorted[k];
  }

  lemma SampleHasLeast(order: seq<Address>, pool: set<Address>, hash: Hash, manifoldId: u64, epoch: u64, size: nat)
    requires Enumerates(order, pool)
    ensures var elected := Sample(order, ElectionKey(hash, ElectionSeed(hash, manifoldId, epoch)), size);
            elected <= pool && |elected| == Min(|pool|, size) && LeastHashes(elected, pool, hash, manifoldId, epoch)
  {
    var seed := ElectionSeed(hash, manifoldId, epoch);
    var key := ElectionKey(hash, seed);
    var elected := Sample(order, key, size);
    SortBySorts(order, key);
    EnumerationFacts(SortBy(order, key), pool);
    PrefixSize(SortBy(order, key), Min(|pool|, size));
    forall v, w | v in elected && w in pool && w !in elected
      ensures !SortsBefore(hash(BigEndian(w, 20) + seed), hash(BigEndian(v, 20) + seed))
    {
      PrefixKeysLeast(order, pool, key, size, v, w);
      BytesCompare(hash(BigEndian(w, 20) + seed), hash(BigEndian(v, 20) + seed));
    }
  }

  // ---------- the elected set, without any order ----------

  ghost predicate DistinctKeys(pool: set<Address>, key: Address -> int) {
    forall v, w :: v in pool && w in pool && key(v) == key(w) ==> v == w
  }

  function Below(pool: set<Address>, key: Address -> int, v: Address): set<Address> {
    set w | w in pool && key(w) < key(v)
  }

  function UpTo(pool: set<Address>, key: Address -> int, v: Address): set<Address> {
    set w | w in pool && key(w) <= key(v)
  }

  /** The members with fewer than `size` members of lesser key. */
  function Elected(pool: set<Address>, key: Address -> int, size: nat): set<Address> {
    set v | v in pool && |Below(pool, key, v)| < size
  }

  lemma EnumerationFacts(order: seq<Address>, pool: set<Address>)
    requires Enumerates(order, pool)
    ensures |order| == |pool| && forall a :: a in order <==> a in pool
    ensures forall i, j :: 0 <= i < j < |order| ==> order[i] != order[j]
  {
    assert |multiset(order)| == |multiset(pool)|;
    forall a ensures a in order <==> a in pool {
      assert a in order <==> a in multiset(order);
    }
    forall i, j | 0 <= i < j < |order| ensures order[i] != order[j] {
      if order[i] == order[j] { CountedTwice(order, i, j); }
    }
  }

  lemma {:induction false} PrefixSize(s: seq<Address>, n: nat)
    requires n <= |s| && forall i, j :: 0 <= i < j < |s| ==> s[i] != s[j]
    ensures |SetOf(s[..n])| == n
  {
    if n > 0 {
      PrefixSize(s, n - 1);
      assert SetOf(s[..n]) == SetOf(s[..n - 1]) + {s[n - 1]};
    }
  }

  /** In the sorted pool, whoever stands at `i` has at most `i` members below and at least `i + 1` up to it. */
  lemma RankBounds(sorted: seq<Address>, pool: set<Address>, key: Address -> int, i: nat)
    requires Enumerates(sorted, pool) && SortedBy(sorted, key) && i < |sorted|
    ensures |Below(pool, key, sorted[i])| <= i < |UpTo(pool, key, sorted[i])|
  {
    EnumerationFacts(sorted, pool);
    PrefixSize(sorted, i);
    PrefixSize(sorted, i + 1);
    assert Below(pool, key, sorted[i]) <= SetOf(sorted[..i]);
    assert SetOf(sorted[..i + 1]) <= UpTo(pool, key, sorted[i]);
    SubsetSize(Below(pool, key, sorted[i]), SetOf(sorted[..i]));
    SubsetSize(SetOf(sorted[..i + 1]), UpTo(pool, key, sorted[i]));
  }

  /** No group of equal keys reaches across the cut. */
  ghost predicate CleanCut(pool: set<Address>, key: Address -> int, size: nat) {
    forall v :: v in pool && |Below(pool, key, v)| < size ==> |UpTo(pool, key, v)| <= size
  }

  lemma CleanSample(order: seq<Address>, pool: set<Address>, key: Address -> int, size: nat)
    requires Enumerates(order, pool) && CleanCut(pool, key, size)
    ensures Sample(order, key, size) == Elected(pool, key, size)
  {
    var sorted := SortBy(order, key);
    SortBySorts(order, key);
    EnumerationFacts(sorted, pool);
    var n := if |sorted| < size then |sorted| else size;
    forall v | v in pool ensures v in SetOf(sorted[..n]) <==> v in Elected(pool, key, size) {
      var i :| 0 <= i < |sorted| && sorted[i] == v;
      RankBounds(sorted, pool, key, i);
      if i < n { assert sorted[..n][i] == v; }
    }
  }

  lemma DistinctKeysCutClean(pool: set<Address>, key: Address -> int, size: nat)
    requires DistinctKeys(pool, key)
    ensures CleanCut(pool, key, size)
  {
    forall v | v in pool && |Below(pool, key, v)| < size ensures |UpTo(pool, key, v)| <= size {
      assert UpTo(pool, key, v) == Below(pool, key, v) + {v};
    }
  }

  /** With distinct keys the sample is the elected set, whatever order the hash set iterates in. */
  lemma SampleIsElected(order: seq<Address>, pool: set<Address>, key: Address -> int, size: nat)
    requires Enumerates(order, pool) && DistinctKeys(pool, key)
    ensures Sample(order, key, size) == Elected(pool, key, size)
  {
    DistinctKeysCutClean(pool, key, size);
    CleanSample(order, pool, key, size);
  }

  /** The number elected. */
  lemma ElectedCount(pool: set<Address>, key: Address -> int, size: nat)
    requires DistinctKeys(pool, key)
    ensures |Elected(pool, key, size)| == if |pool| < size then |pool| else size
  {
    var order := Listing(pool);
    SampleIsElected(order, pool, key, size);
    SortBySorts(order, key);
    EnumerationFacts(SortBy(order, key), pool);
    PrefixSize(SortBy(order, key), if |pool| < size then |pool| else size);
  }

  lemma {:induction false} Listing(pool: set<Address>) returns (order: seq<Address>)
    ensures Enumerates(order, pool)
    decreases pool
  {
    if pool == {} {
      order := [];
    } else {
      var a :| a in pool;
      var rest := Listing(pool - {a});
      order := rest + [a];
    }
  }

  // ---------- ties at the cut ----------

  /** Where stable insertion puts an element: after everything not above it. */
  lemma {:induction false} InsertPosition(x: Address, s: seq<Address>, key: Address -> int) returns (p: nat)
    requires SortedBy(s, key)
    ensures p <= |s| && InsertBy(x, s, key) == s[..p] + [x] + s[p..]
    ensures forall i :: 0 <= i < p ==> key(s[i]) <= key(x)
    ensures forall i :: p <= i < |s| ==> key(s[i]) > key(x)
  {
    if s == [] || key(s[|s| - 1]) <= key(x) {
      p := |s|;
      assert s[..p] == s;
    } else {
      p := InsertPosition(x, s[..|s| - 1], key);
      assert s == s[..|s| - 1] + [s[|s| - 1]];
      assert s[..|s| - 1][..p] == s[..p];
    }
  }

  /** Listed last, an element stands after all its ties. */
  lemma LastAmongTies(rest: seq<Address>, v: Address, key: Address -> int, pool: set<Address>, size: nat)
    requires Enumerates(rest + [v], pool) && |UpTo(pool, key, v)| > size
    ensures v !in Sample(rest + [v], key, size)
  {
    var order := rest + [v];
    assert order[..|order| - 1] == rest;
    SortBySorts(rest, key);
    var p := InsertPosition(v, SortBy(rest, key), key);
    var s := SortBy(rest, key);
    var sorted := SortBy(order, key);
    assert sorted == s[..p] + [v] + s[p..];
    SortBySorts(order, key);
    EnumerationFacts(sorted, pool);
    assert sorted[p] == v;
    PrefixSize(sorted, p + 1);
    forall i | p < i < |sorted| ensures key(sorted[i]) > key(v) {
      assert sorted[i] == s[i - 1];
    }
    forall w | w in UpTo(pool, key, v) ensures w in SetOf(sorted[..p + 1]) {
      var i :| 0 <= i < |sorted| && sorted[i] == w;
      assert sorted[..p + 1][i] == w;
    }
    SubsetSize(UpTo(pool, key, v), SetOf(sorted[..p + 1]));
    assert p >= size;
    forall i | 0 <= i < size ensures sorted[i] != v {
    }
  }

  /** `v` stands at `p`, with nothing but lesser keys before it. */
  ghost predicate LeadsTies(s: seq<Address>, p: nat, v: Address, key: Address -> int) {
    p < |s| && s[p] == v && forall i :: 0 <= i < p ==> key(s[i]) < key(v)
  }

  /** A later insertion goes behind its ties, so whoever leads them still does. */
  lemma InsertKeepsLeader(x: Address, s: seq<Address>, q: nat, v: Address, key: Address -> int) returns (p: nat)
    requires SortedBy(s, key) && LeadsTies(s, q, v, key)
    ensures LeadsTies(InsertBy(x, s, key), p, v, key)
  {
    var at := InsertPosition(x, s, key);
    p := if at <= q then q + 1 else q;
    var sorted := s[..at] + [x] + s[at..];
    assert sorted[p] == s[q];
    assert at <= q ==> key(x) < key(s[at]) <= key(s[q]);
    forall i | 0 <= i < p ensures key(sorted[i]) < key(v) {
      assert sorted[i] == if i < at then s[i] else if i == at then x else s[i - 1];
    }
  }

  /** Listed first, an element stands before all its ties. */
  lemma {:induction false} FirstAmongTies(v: Address, rest: seq<Address>, key: Address -> int) returns (p: nat)
    ensures LeadsTies(SortBy([v] + rest, key), p, v, key)
  {
    var order := [v] + rest;
    if rest == [] {
      assert order == [v] && [v][..0] == [];
      p := 0;
    } else {
      var init := rest[..|rest| - 1];
      assert order[..|order| - 1] == [v] + init;
      var q := FirstAmongTies(v, init, key);
      SortBySorts([v] + init, key);
      p := InsertKeepsLeader(rest[|rest| - 1], SortBy([v] + init, key), q, v, key);
    }
  }

  lemma FirstIsSampled(v: Address, rest: seq<Address>, key: Address -> int, pool: set<Address>, size: nat)
    requires Enumerates([v] + rest, pool) && |Below(pool, key, v)| < size
    ensures v in Sample([v] + rest, key, size)
  {
    var p := FirstAmongTies(v, rest, key);
    var sorted := SortBy([v] + rest, key);
    SortBySorts([v] + rest, key);
    EnumerationFacts(sorted, pool);
    PrefixSize(sorted, p);
    assert SetOf(sorted[..p]) <= Below(pool, key, v);
    SubsetSize(SetOf(sorted[..p]), Below(pool, key, v));
    assert sorted[..if |sorted| < size then |sorted| else size][p] == v;
  }

  ghost predicate OrderMatters(pool: set<Address>, key: Address -> int, size: nat) {
    exists x, y :: Enumerates(x, pool) && Enumerates(y, pool) && Sample(x, key, size) != Sample(y, key, size)
  }

  /** The outcome is independent of the hash set's iteration order exactly when no tie crosses the cut. */
  lemma OrderMattersIffTieAtCut(pool: set<Address>, key: Address -> int, size: nat)
    ensures OrderMatters(pool, key, size) <==> !CleanCut(pool, key, size)
  {
    if CleanCut(pool, key, size) {
      forall x, y | Enumerates(x, pool) && Enumerates(y, pool) ensures Sample(x, key, size) == Sample(y, key, size) {
        CleanSample(x, pool, key, size);
        CleanSample(y, pool, key, size);
      }
    } else {
      var v :| v in pool && |Below(pool, key, v)| < size && |UpTo(pool, key, v)| > size;
      var rest := Listing(pool - {v});
      assert Enumerates([v] + rest, pool) && Enumerates(rest + [v], pool);
      FirstIsSampled(v, rest, key, pool, size);
      LastAmongTies(rest, v, key, pool, size);
    }
  }

  // ---------- stability ----------

  lemma BelowGrows(pool: set<Address>, key: Address -> int, x: Address, v: Address)
    requires x !in pool
    ensures |Below(pool + {x}, key, v)| == |Below(pool, key, v)| + if key(x) < key(v) then 1 else 0
  {
    if key(x) < key(v) {
      assert Below(pool + {x}, key, v) == Below(pool, key, v) + {x};
    } else {
      assert Below(pool + {x}, key, v) == Below(pool, key, v);
    }
  }

  lemma RankOrders(pool: set<Address>, key: Address -> int, v: Address, w: Address)
    requires v in pool && w in pool && key(v) < key(w)
    ensures |Below(pool, key, v)| < |Below(pool, key, w)|
  {
    assert v !in Below(pool, key, v);
    SubsetSize(Below(pool, key, v) + {v}, Below(pool, key, w));
  }

  /**
   Stability: one validator more brings in nobody but itself and drops at most one member, and
   that only if it is elected. Read from right to left, this is the removal of a validator.
   */
  lemma ElectionStable(pool: set<Address>, key: Address -> int, size: nat, x: Address)
    requires x !in pool && DistinctKeys(pool + {x}, key)
    ensures Elected(pool + {x}, key, size) - Elected(pool, key, size) <= {x}
    ensures |Elected(pool, key, size) - Elected(pool + {x}, key, size)| <= 1
    ensures x !in Elected(pool + {x}, key, size) ==> Elected(pool + {x}, key, size) == Elected(pool, key, size)
  {
    var before, after := Elected(pool, key, size), Elected(pool + {x}, key, size);
    forall v ensures |Below(pool + {x}, key, v)| == |Below(pool, key, v)| + if key(x) < key(v) then 1 else 0 {
      BelowGrows(pool, key, x, v);
    }
    var dropped := before - after;
    forall v, w | v in dropped && w in dropped ensures v == w {
      if key(v) < key(w) { RankOrders(pool, key, v, w); }
      if key(w) < key(v) { RankOrders(pool, key, w, v); }
    }
    AtMostOne(dropped);
    if x !in after {
      forall v | v in dropped ensures false {
        RankOrders(pool + {x}, key, x, v);
      }
    }
  }

  lemma AtMostOne(s: set<Address>)
    requires forall v, w :: v in s && w in s ==> v == w
    ensures |s| <= 1
  {
    if s != {} {
      var v :| v in s;
      assert s == {v};
    }
  }
}
