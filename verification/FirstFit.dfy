/** What first-fit scheduling guarantees about the waves. */
module FirstFit {
  import opened Lists
  import opened Machine
  import opened Transfers
  import opened Ordering
  import opened Waves

  lemma {:induction false} TakenAndDeferred(txs: seq<TxAccessList>, wave: seq<TxAccessList>)
    ensures multiset(Taken(txs, wave)) + multiset(Deferred(txs, wave)) == multiset(txs)
  {
    if txs != [] {
      assert txs == [txs[0]] + txs[1..];
      if ConflictsWithWave(txs[0], wave) {
        TakenAndDeferred(txs[1..], wave);
      } else {
        TakenAndDeferred(txs[1..], wave + [txs[0]]);
      }
    }
  }

  /** Every transfer is scheduled exactly once. */
  lemma {:induction false} WavesCover(txs: seq<TxAccessList>)
    ensures multiset(Flatten(WavesOf(txs))) == multiset(txs)
    decreases |txs|
  {
    if txs != [] {
      TakenAndDeferred(txs, []);
      DeferredShorter(txs);
      WavesCover(Deferred(txs, []));
      var ws := WavesOf(txs);
      assert ws[1..] == WavesOf(Deferred(txs, []));
    }
  }

  /** Filtering keeps list order. */
  lemma {:induction false} TakenInOrder(txs: seq<TxAccessList>, wave: seq<TxAccessList>, x: TxAccessList,
                                        y: TxAccessList)
    ensures Precedes(Taken(txs, wave), x, y) ==> Precedes(txs, x, y)
    ensures Precedes(Deferred(txs, wave), x, y) ==> Precedes(txs, x, y)
  {
    if txs != [] {
      var h, tail := txs[0], txs[1..];
      var wave' := if ConflictsWithWave(h, wave) then wave else wave + [h];
      assert txs == [h] + tail;
      TakenInOrder(tail, wave', x, y);
      TakenAndDeferred(tail, wave');
      PrecedesInTail(h, tail, x, y);
      PrecedesInTail(h, Taken(tail, wave'), x, y);
      PrecedesInTail(h, Deferred(tail, wave'), x, y);
      assert y in Taken(tail, wave') ==> y in multiset(tail);
      assert y in Deferred(tail, wave') ==> y in multiset(tail);
    }
  }

  ghost predicate ConflictFree(wave: seq<TxAccessList>) {
    forall i, j :: 0 <= i < j < |wave| ==> !Conflicts(wave[j], wave[i])
  }

  lemma {:induction false} TakenConflictFree(txs: seq<TxAccessList>, wave: seq<TxAccessList>)
    requires ConflictFree(wave)
    ensures ConflictFree(wave + Taken(txs, wave))
  {
    if txs != [] {
      if ConflictsWithWave(txs[0], wave) {
        TakenConflictFree(txs[1..], wave);
      } else {
        TakenConflictFree(txs[1..], wave + [txs[0]]);
        assert wave + [txs[0]] + Taken(txs[1..], wave + [txs[0]]) == wave + Taken(txs, wave);
      }
    }
  }

  /** A deferred transfer conflicts with an earlier-listed member of the wave that refused it. */
  lemma {:induction false} DeferredByEarlier(txs: seq<TxAccessList>, wave: seq<TxAccessList>, t: TxAccessList)
    returns (u: TxAccessList)
    requires t in Deferred(txs, wave)
    ensures Conflicts(t, u)
    ensures u in wave || (u in Taken(txs, wave) && Precedes(txs, u, t))
  {
    var h, tail := txs[0], txs[1..];
    assert txs == [h] + tail;
    if ConflictsWithWave(h, wave) && t == h {
      var i :| 0 <= i < |wave| && Conflicts(t, wave[i]);
      u := wave[i];
    } else {
      var wave' := if ConflictsWithWave(h, wave) then wave else wave + [h];
      u := DeferredByEarlier(tail, wave', t);
      TakenAndDeferred(tail, wave');
      assert t in multiset(tail);
      PrecedesInTail(h, tail, u, t);
    }
  }

  /** Within a wave nothing conflicts, and the wave keeps list order. */
  lemma {:induction false} WaveIsSound(txs: seq<TxAccessList>, w: nat)
    requires w < |WavesOf(txs)|
    ensures WavesOf(txs)[w] != [] && ConflictFree(WavesOf(txs)[w])
    ensures forall x, y :: Precedes(WavesOf(txs)[w], x, y) ==> Precedes(txs, x, y)
    decreases |txs|
  {
    var rest := Deferred(txs, []);
    DeferredShorter(txs);
    if w == 0 {
      TakenConflictFree(txs, []);
      assert [] + Taken(txs, []) == Taken(txs, []);
      forall x, y | Precedes(Taken(txs, []), x, y) ensures Precedes(txs, x, y) { TakenInOrder(txs, [], x, y); }
    } else {
      WaveIsSound(rest, w - 1);
      assert WavesOf(txs)[w] == WavesOf(rest)[w - 1];
      forall x, y | Precedes(rest, x, y) ensures Precedes(txs, x, y) { TakenInOrder(txs, [], x, y); }
    }
  }

  /**
   First fit: each earlier wave holds an earlier-listed transfer that conflicts. With `WaveIsSound`,
   a transfer lands in the first wave that is free of earlier-listed conflicts.
   */
  lemma {:induction false} FirstFreeWave(txs: seq<TxAccessList>, w: nat, v: nat, t: TxAccessList)
    returns (u: TxAccessList)
    requires v < w < |WavesOf(txs)| && t in WavesOf(txs)[w]
    ensures u in WavesOf(txs)[v] && Conflicts(t, u) && Precedes(txs, u, t)
    decreases |txs|
  {
    var rest := Deferred(txs, []);
    DeferredShorter(txs);
    assert WavesOf(txs)[w] == WavesOf(rest)[w - 1];
    if v == 0 {
      InFlatten(WavesOf(rest), w - 1, t);
      WavesCover(rest);
      assert t in multiset(rest);
      u := DeferredByEarlier(txs, [], t);
    } else {
      u := FirstFreeWave(rest, w - 1, v - 1, t);
      assert WavesOf(txs)[v] == WavesOf(rest)[v - 1];
      TakenInOrder(txs, [], u, t);
    }
  }

  /** The earlier-listed transfers a transfer conflicts with. */
  ghost function EarlierConflicts(txs: seq<TxAccessList>, t: TxAccessList): set<TxAccessList> {
    set u | u in txs && Precedes(txs, u, t) && Conflicts(t, u)
  }

  lemma {:induction false} WaveMembersDistinct(txs: seq<TxAccessList>, v: nat, w: nat, u: TxAccessList)
    requires DistinctIndices(txs) && v < w < |WavesOf(txs)| && u in WavesOf(txs)[v]
    ensures u !in WavesOf(txs)[w]
    decreases |txs|
  {
    var rest := Deferred(txs, []);
    DeferredShorter(txs);
    TakenAndDeferred(txs, []);
    assert WavesOf(txs)[w] == WavesOf(rest)[w - 1];
    if v == 0 {
      if u in WavesOf(rest)[w - 1] {
        InFlatten(WavesOf(rest), w - 1, u);
        WavesCover(rest);
        assert u in multiset(rest) && u in multiset(Taken(txs, []));
        OccursOnce(txs, u);
      }
    } else {
      DistinctSublist(txs, []);
      WaveMembersDistinct(rest, v - 1, w - 1, u);
    }
  }

  lemma {:induction false} OccursOnce(txs: seq<TxAccessList>, u: TxAccessList)
    requires DistinctIndices(txs)
    ensures multiset(txs)[u] <= 1
  {
    if txs != [] {
      assert txs == [txs[0]] + txs[1..];
      OccursOnce(txs[1..], u);
      assert u in multiset(txs[1..]) ==> u in txs[1..];
    }
  }

  lemma {:induction false} DistinctSublist(txs: seq<TxAccessList>, wave: seq<TxAccessList>)
    requires DistinctIndices(txs)
    ensures DistinctIndices(Deferred(txs, wave))
  {
    if txs != [] {
      var wave' := if ConflictsWithWave(txs[0], wave) then wave else wave + [txs[0]];
      DistinctSublist(txs[1..], wave');
      TakenAndDeferred(txs[1..], wave');
      forall t | t in Deferred(txs[1..], wave') ensures t.index != txs[0].index {
        assert t in multiset(txs[1..]);
        assert t in txs[1..];
      }
    }
  }

  /** Conflicting predecessors of `t`, one from each of the first `n` waves. */
  lemma {:induction false} OneConflictPerWave(txs: seq<TxAccessList>, w: nat, n: nat, t: TxAccessList)
    returns (us: set<TxAccessList>)
    requires DistinctIndices(txs) && n <= w < |WavesOf(txs)| && t in WavesOf(txs)[w]
    ensures |us| == n && us <= EarlierConflicts(txs, t)
    ensures forall u :: u in us ==> exists v :: 0 <= v < n && u in WavesOf(txs)[v]
  {
    if n == 0 {
      us := {};
    } else {
      us := OneConflictPerWave(txs, w, n - 1, t);
      var u := FirstFreeWave(txs, w, n - 1, t);
      if u in us {
        var v :| 0 <= v < n - 1 && u in WavesOf(txs)[v];
        WaveMembersDistinct(txs, v, n - 1, u);
      }
      assert u in txs by { var i, j :| 0 <= i < j < |txs| && txs[i] == u && txs[j] == t; }
      us := us + {u};
    }
  }

  /** The number of waves is at most one more than the largest number of earlier-listed conflicts. */
  lemma WaveCount(txs: seq<TxAccessList>) returns (t: TxAccessList)
    requires DistinctIndices(txs) && txs != []
    ensures t in txs && |WavesOf(txs)| <= 1 + |EarlierConflicts(txs, t)|
  {
    var w := |WavesOf(txs)| - 1;
    WaveIsSound(txs, w);
    t := WavesOf(txs)[w][0];
    InFlatten(WavesOf(txs), w, t);
    WavesCover(txs);
    assert t in multiset(txs);
    var us := OneConflictPerWave(txs, w, w, t);
    SubsetSize(us, EarlierConflicts(txs, t));
  }

  lemma {:induction false} SubsetSize<T>(x: set<T>, y: set<T>)
    requires x <= y
    ensures |x| <= |y|
  {
    if x != {} {
      var e :| e in x;
      SubsetSize(x - {e}, y - {e});
    }
  }

  // ---------- termination ----------

  lemma {:induction false} PassStaysInside(txs: seq<TxAccessList>, all: set<usize>, p: set<usize>,
                                           wave: seq<TxAccessList>)
    requires Indices(txs) <= all && p <= all
    ensures p <= PassProcessed(txs, p, wave) <= all
  {
    if txs != [] {
      assert txs[0].index in Indices(txs);
      assert Indices(txs[1..]) <= Indices(txs);
      if txs[0].index in p || ConflictsWithWave(txs[0], wave) {
        PassStaysInside(txs[1..], all, p, wave);
      } else {
        PassStaysInside(txs[1..], all, p + {txs[0].index}, wave + [txs[0]]);
      }
    }
  }

  lemma {:induction false} ProcessedInside(txs: seq<TxAccessList>, n: nat)
    ensures ProcessedAfter(txs, n) <= Indices(txs)
  {
    if n > 0 {
      ProcessedInside(txs, n - 1);
      PassStaysInside(txs, Indices(txs), ProcessedAfter(txs, n - 1), []);
    }
  }

  lemma DistinctCons(h: TxAccessList, tail: seq<TxAccessList>)
    ensures DistinctIndices([h] + tail) <==> h.index !in Indices(tail) && DistinctIndices(tail)
  {
    var txs := [h] + tail;
    if DistinctIndices(txs) {
      forall j | 0 <= j < |tail| ensures tail[j].index != h.index {
        assert txs[0].index != txs[j + 1].index;
        assert txs[j + 1] == tail[j];
      }
      forall i, j | 0 <= i < j < |tail| ensures tail[i].index != tail[j].index {
        assert txs[i + 1] == tail[i] && txs[j + 1] == tail[j];
      }
    }
  }

  lemma {:induction false} IndexCount(txs: seq<TxAccessList>)
    ensures |Indices(txs)| <= |txs|
    ensures |Indices(txs)| == |txs| <==> DistinctIndices(txs)
  {
    if txs != [] {
      var h, tail := txs[0], txs[1..];
      assert txs == [h] + tail;
      IndexCount(tail);
      DistinctCons(h, tail);
      assert Indices(txs) == Indices(tail) + {h.index};
      assert h.index in Indices(tail) ==> Indices(txs) == Indices(tail);
    }
  }

  /** The partition loop ends exactly for lists without repeated indices; `PartitionWaves` shows one way. */
  lemma PartitionTerminatesIffDistinct(txs: seq<TxAccessList>)
    ensures (exists passes: nat :: |ProcessedAfter(txs, passes)| >= |txs|) <==> DistinctIndices(txs)
  {
    IndexCount(txs);
    if passes: nat :| |ProcessedAfter(txs, passes)| >= |txs| {
      ProcessedInside(txs, passes);
      SubsetSize(ProcessedAfter(txs, passes), Indices(txs));
    }
    if DistinctIndices(txs) {
      UnprocessedAll(txs);
      PassesCover(txs, {}, 0);
    }
  }

  lemma {:induction false} PassesCover(txs: seq<TxAccessList>, processed: set<usize>, n: nat)
    requires DistinctIndices(txs) && processed <= Indices(txs) && processed == ProcessedAfter(txs, n)
    ensures exists passes: nat :: |ProcessedAfter(txs, passes)| >= |txs|
    decreases |Unprocessed(txs, processed)|
  {
    if Unprocessed(txs, processed) == [] {
      AllProcessed(txs, processed);
    } else {
      NextPass(txs, processed);
      assert ProcessedAfter(txs, n + 1) == PassProcessed(txs, processed, []);
      PassesCover(txs, ProcessedAfter(txs, n + 1), n + 1);
    }
  }

  lemma AllProcessed(txs: seq<TxAccessList>, processed: set<usize>)
    requires DistinctIndices(txs) && processed <= Indices(txs) && Unprocessed(txs, processed) == []
    ensures |processed| == |txs|
  {
    UnprocessedCount(txs, processed);
    assert processed * Indices(txs) == processed;
  }

  lemma NextPass(txs: seq<TxAccessList>, processed: set<usize>)
    requires DistinctIndices(txs) && processed <= Indices(txs) && Unprocessed(txs, processed) != []
    ensures PassProcessed(txs, processed, []) <= Indices(txs)
    ensures |Unprocessed(txs, PassProcessed(txs, processed, []))| < |Unprocessed(txs, processed)|
  {
    PassStarts(txs, processed);
    var wave, processed' := RunPass(txs, processed, 0, processed, []);
    PassEnds(txs, processed, processed', wave);
    DeferredShorter(Unprocessed(txs, processed));
  }

  lemma {:induction false} RunPass(txs: seq<TxAccessList>, before: set<usize>, i: nat, p: set<usize>,
                                   w: seq<TxAccessList>)
    returns (wave: seq<TxAccessList>, processed: set<usize>)
    requires DistinctIndices(txs) && before <= Indices(txs) && i <= |txs|
    requires PassAt(txs, before, i, p, w)
    ensures PassAt(txs, before, |txs|, processed, wave)
    decreases |txs| - i
  {
    if i == |txs| {
      wave, processed := w, p;
    } else if txs[i].index in p || ConflictsWithWave(txs[i], w) {
      PassSkips(txs, before, i, p, w);
      wave, processed := RunPass(txs, before, i + 1, p, w);
    } else {
      PassJoins(txs, before, i, p, w);
      wave, processed := RunPass(txs, before, i + 1, p + {txs[i].index}, w + [txs[i]]);
    }
  }

  lemma {:induction false} FewIndices(s: set<usize>, n: nat)
    requires forall x :: x in s ==> x < n
    ensures |s| <= n
  {
    if s != {} {
      var x :| x in s;
      if n - 1 in s {
        FewIndices(s - {n - 1}, n - 1);
      } else {
        FewIndices(s, n - 1);
      }
    }
  }

  /** A block without repeated indices is no longer than there are indices. */
  lemma BlockLength(txs: seq<TxAccessList>)
    requires DistinctIndices(txs)
    ensures |txs| <= TWO_64
  {
    IndexCount(txs);
    FewIndices(Indices(txs), TWO_64);
  }
}
