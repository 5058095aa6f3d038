/** `WaveExecutor::partition_waves`: first-fit scheduling of transfers into conflict-free waves. */
module Waves {
  import opened Lists
  import opened Machine
  import opened Transfers
  import opened Ordering

  /** The declared sets of two transfers conflict: one writes what the other reads or writes. */
  ghost predicate Conflicts(t: TxAccessList, u: TxAccessList) {
    || t.writeAddresses * (u.readAddresses + u.writeAddresses) != {}
    || t.readAddresses * u.writeAddresses != {}
    || SlotsMeet(t.writeSlots, u.readSlots)
    || SlotsMeet(t.writeSlots, u.writeSlots)
    || SlotsMeet(t.readSlots, u.writeSlots)
  }

  ghost predicate ConflictsWithWave(t: TxAccessList, wave: seq<TxAccessList>) {
    exists i :: 0 <= i < |wave| && Conflicts(t, wave[i])
  }

  /** Spelled out: some address or some slot is written by one of the two and read or written by the other. */
  lemma {:induction false} ConflictsMeans(t: TxAccessList, u: TxAccessList)
    ensures Conflicts(t, u) <==>
            || (exists a: Address :: (a in t.writeAddresses && (a in u.readAddresses || a in u.writeAddresses))
                                     || (a in t.readAddresses && a in u.writeAddresses))
            || (exists a: Address, slot: U256 ::
                  (HasSlot(t.writeSlots, a, slot) && (HasSlot(u.readSlots, a, slot) || HasSlot(u.writeSlots, a, slot)))
                  || (HasSlot(t.readSlots, a, slot) && HasSlot(u.writeSlots, a, slot)))
  {
    if t.writeAddresses * (u.readAddresses + u.writeAddresses) != {} {
      var a :| a in t.writeAddresses * (u.readAddresses + u.writeAddresses);
    }
    if t.readAddresses * u.writeAddresses != {} {
      var a :| a in t.readAddresses * u.writeAddresses;
    }
    if a: Address :| a in t.writeAddresses && (a in u.readAddresses || a in u.writeAddresses) {
      assert a in t.writeAddresses * (u.readAddresses + u.writeAddresses);
    }
    if a: Address :| a in t.readAddresses && a in u.writeAddresses {
      assert a in t.readAddresses * u.writeAddresses;
    }
  }

  lemma ConflictsSymmetric(t: TxAccessList, u: TxAccessList)
    ensures Conflicts(t, u) == Conflicts(u, t)
  {
  }

  // ---------- the schedule ----------

  /** The transfers of `txs` that join a wave already holding `wave`, in list order. */
  ghost function Taken(txs: seq<TxAccessList>, wave: seq<TxAccessList>): seq<TxAccessList> {
    if txs == [] then []
    else if ConflictsWithWave(txs[0], wave) then Taken(txs[1..], wave)
    else [txs[0]] + Taken(txs[1..], wave + [txs[0]])
  }

  /** The transfers of `txs` deferred to a later wave. */
  ghost function Deferred(txs: seq<TxAccessList>, wave: seq<TxAccessList>): (d: seq<TxAccessList>)
    ensures |d| <= |txs|
  {
    if txs == [] then []
    else if ConflictsWithWave(txs[0], wave) then [txs[0]] + Deferred(txs[1..], wave)
    else Deferred(txs[1..], wave + [txs[0]])
  }

  ghost function WavesOf(txs: seq<TxAccessList>): seq<seq<TxAccessList>>
    decreases |txs|
  {
    if txs == [] then [] else [Taken(txs, [])] + WavesOf(Deferred(txs, []))
  }

  function Indices(txs: seq<TxAccessList>): set<usize> {
    set t | t in txs :: t.index
  }

  function Unprocessed(txs: seq<TxAccessList>, processed: set<usize>): seq<TxAccessList> {
    if txs == [] then []
    else if txs[0].index in processed then Unprocessed(txs[1..], processed)
    else [txs[0]] + Unprocessed(txs[1..], processed)
  }

  // ---------- the loops ----------

  /** Looks every declared slot up in the map of the wave, address by address, up to the first that is there. */
  method AnySlotIn(declared: Slots, wave: Slots) returns (found: bool)
    ensures found <==> SlotsMeet(declared, wave)
  {
    var addrs := declared.Keys;
    found := false;
    while addrs != {}
      invariant addrs <= declared.Keys
      invariant !found ==> forall a: Address, slot: U256 ::
                             HasSlot(declared, a, slot) && HasSlot(wave, a, slot) ==> a in addrs
      invariant found ==> SlotsMeet(declared, wave)
      decreases addrs
    {
      var a :| a in addrs;
      addrs := addrs - {a};
      if a in wave && exists slot | slot in declared[a] :: slot in wave[a] {
        var slot :| slot in declared[a] && slot in wave[a];
        assert HasSlot(declared, a, slot) && HasSlot(wave, a, slot);
        found := true;
        break;
      }
    }
  }

  /** Adds the declared slots to the map of the wave, address by address. */
  method ExtendSlots(wave: Slots, declared: Slots) returns (merged: Slots)
    ensures forall a: Address, slot: U256 ::
              HasSlot(merged, a, slot) <==> HasSlot(wave, a, slot) || HasSlot(declared, a, slot)
  {
    merged := wave;
    var addrs := declared.Keys;
    while addrs != {}
      invariant addrs <= declared.Keys
      invariant forall a: Address, slot: U256 ::
                  HasSlot(merged, a, slot) <==>
                  HasSlot(wave, a, slot) || (a !in addrs && HasSlot(declared, a, slot))
      decreases addrs
    {
      var a :| a in addrs;
      addrs := addrs - {a};
      merged := merged[a := (if a in merged then merged[a] else {}) + declared[a]];
    }
  }

  /** The wave's accumulated sets are the unions of its members' declared sets. */
  ghost predicate Accumulates(wave: seq<TxAccessList>, written: set<Address>, seen: set<Address>,
                              writeSlots: Slots, readSlots: Slots)
  {
    && (forall a: Address :: a in written <==> exists i :: 0 <= i < |wave| && a in wave[i].writeAddresses)
    && (forall a: Address :: a in seen <==> exists i :: 0 <= i < |wave| && a in wave[i].readAddresses)
    && (forall a: Address, slot: U256 ::
          HasSlot(writeSlots, a, slot) <==> exists i :: 0 <= i < |wave| && HasSlot(wave[i].writeSlots, a, slot))
    && (forall a: Address, slot: U256 ::
          HasSlot(readSlots, a, slot) <==> exists i :: 0 <= i < |wave| && HasSlot(wave[i].readSlots, a, slot))
  }

  /** The code tests a transfer against the accumulated sets; that is the test against each member. */
  lemma AccumulatedConflict(t: TxAccessList, wave: seq<TxAccessList>, written: set<Address>, seen: set<Address>,
                            writeSlots: Slots, readSlots: Slots)
    requires Accumulates(wave, written, seen, writeSlots, readSlots)
    ensures ConflictsWithWave(t, wave) <==>
            || t.writeAddresses * (seen + written) != {} || t.readAddresses * written != {}
            || SlotsMeet(t.writeSlots, readSlots) || SlotsMeet(t.writeSlots, writeSlots)
            || SlotsMeet(t.readSlots, writeSlots)
  {
    if t.writeAddresses * (seen + written) != {} {
      var a :| a in t.writeAddresses * (seen + written);
      var i :| 0 <= i < |wave| && (a in wave[i].writeAddresses || a in wave[i].readAddresses);
      assert a in t.writeAddresses * (wave[i].readAddresses + wave[i].writeAddresses);
    }
    if t.readAddresses * written != {} {
      var a :| a in t.readAddresses * written;
      var i :| 0 <= i < |wave| && a in wave[i].writeAddresses;
      assert a in t.readAddresses * wave[i].writeAddresses;
    }
    if ConflictsWithWave(t, wave) {
      var i :| 0 <= i < |wave| && Conflicts(t, wave[i]);
      if t.writeAddresses * (wave[i].readAddresses + wave[i].writeAddresses) != {} {
        var a :| a in t.writeAddresses * (wave[i].readAddresses + wave[i].writeAddresses);
        assert a in t.writeAddresses * (seen + written);
      } else if t.readAddresses * wave[i].writeAddresses != {} {
        var a :| a in t.readAddresses * wave[i].writeAddresses;
        assert a in t.readAddresses * written;
      }
    }
  }

  lemma AccumulateOne(t: TxAccessList, wave: seq<TxAccessList>, written: set<Address>, seen: set<Address>,
                      ws: Slots, rs: Slots, ws': Slots, rs': Slots)
    requires Accumulates(wave, written, seen, ws, rs)
    requires forall a: Address, slot: U256 ::
               HasSlot(ws', a, slot) <==> HasSlot(ws, a, slot) || HasSlot(t.writeSlots, a, slot)
    requires forall a: Address, slot: U256 ::
               HasSlot(rs', a, slot) <==> HasSlot(rs, a, slot) || HasSlot(t.readSlots, a, slot)
    ensures Accumulates(wave + [t], written + t.writeAddresses, seen + t.readAddresses, ws', rs')
  {
    var wave' := wave + [t];
    assert wave'[|wave|] == t && forall i :: 0 <= i < |wave| ==> wave'[i] == wave[i];
  }

  lemma {:induction false} UnprocessedSnoc(s: seq<TxAccessList>, t: TxAccessList, p: set<usize>)
    ensures Unprocessed(s + [t], p) == Unprocessed(s, p) + if t.index in p then [] else [t]
  {
    if s == [] {
      assert s + [t] == [t];
    } else {
      assert (s + [t])[1..] == s[1..] + [t];
      UnprocessedSnoc(s[1..], t, p);
    }
  }

  lemma {:induction false} UnprocessedIrrelevant(s: seq<TxAccessList>, p: set<usize>, x: usize)
    requires forall i :: 0 <= i < |s| ==> s[i].index != x
    ensures Unprocessed(s, p + {x}) == Unprocessed(s, p)
  {
    if s != [] { UnprocessedIrrelevant(s[1..], p, x); }
  }

  lemma {:induction false} UnprocessedAll(s: seq<TxAccessList>)
    ensures Unprocessed(s, {}) == s
  {
    if s != [] { UnprocessedAll(s[1..]); }
  }

  lemma IndicesCons(s: seq<TxAccessList>)
    requires DistinctIndices(s) && s != []
    ensures Indices(s) == Indices(s[1..]) + {s[0].index} && s[0].index !in Indices(s[1..])
    ensures DistinctIndices(s[1..])
  {
    assert s == [s[0]] + s[1..];
  }

  lemma {:induction false} UnprocessedCount(s: seq<TxAccessList>, p: set<usize>)
    requires DistinctIndices(s)
    ensures |Unprocessed(s, p)| + |p * Indices(s)| == |s|
  {
    if s != [] {
      var x, tail := s[0].index, Indices(s[1..]);
      IndicesCons(s);
      UnprocessedCount(s[1..], p);
      assert p * (tail + {x}) == p * tail + p * {x};
      if x in p { assert p * {x} == {x}; } else { assert p * {x} == {}; }
    }
  }

  lemma {:induction false} DeferredShorter(txs: seq<TxAccessList>)
    requires txs != []
    ensures |Deferred(txs, [])| < |txs|
  {
  }

  /** What one pass over the list leaves in `processed`, for any list, even with repeated indices. */
  ghost function PassProcessed(txs: seq<TxAccessList>, processed: set<usize>, wave: seq<TxAccessList>): set<usize> {
    if txs == [] then processed
    else if txs[0].index in processed || ConflictsWithWave(txs[0], wave) then PassProcessed(txs[1..], processed, wave)
    else PassProcessed(txs[1..], processed + {txs[0].index}, wave + [txs[0]])
  }

  ghost function ProcessedAfter(txs: seq<TxAccessList>, passes: nat): set<usize> {
    if passes == 0 then {} else PassProcessed(txs, ProcessedAfter(txs, passes - 1), [])
  }

  /** `processed` is what was processed before the pass and what it has taken so far. */
  ghost predicate IndicesAt(txs: seq<TxAccessList>, before: set<usize>, i: nat, processed: set<usize>,
                            wave: seq<TxAccessList>)
    requires i <= |txs|
  {
    && processed == before + Indices(wave) && processed <= Indices(txs)
    && (forall j :: i <= j < |txs| ==> (txs[j].index in processed <==> txs[j].index in before))
  }

  ghost predicate TakenAt(txs: seq<TxAccessList>, before: set<usize>, i: nat, wave: seq<TxAccessList>)
    requires i <= |txs|
  {
    wave + Taken(Unprocessed(txs[i..], before), wave) == Taken(Unprocessed(txs, before), [])
  }

  ghost predicate DeferredAt(txs: seq<TxAccessList>, before: set<usize>, i: nat, processed: set<usize>,
                             wave: seq<TxAccessList>)
    requires i <= |txs|
  {
    Unprocessed(txs[..i], processed) + Deferred(Unprocessed(txs[i..], before), wave)
    == Deferred(Unprocessed(txs, before), [])
  }

  /** Where one pass stands after looking at the first `i` transfers. */
  ghost predicate PassAt(txs: seq<TxAccessList>, before: set<usize>, i: nat, processed: set<usize>,
                         wave: seq<TxAccessList>)
    requires i <= |txs|
  {
    && IndicesAt(txs, before, i, processed, wave) && TakenAt(txs, before, i, wave)
    && DeferredAt(txs, before, i, processed, wave)
    && PassProcessed(txs[i..], processed, wave) == PassProcessed(txs, before, [])
  }

  lemma PassStarts(txs: seq<TxAccessList>, before: set<usize>)
    requires before <= Indices(txs)
    ensures PassAt(txs, before, 0, before, [])
  {
    assert txs[..0] == [] && txs[0..] == txs;
  }

  /** The head of what is left, and what `i + 1` leaves. */
  lemma NextUnprocessed(txs: seq<TxAccessList>, before: set<usize>, i: nat)
    requires i < |txs|
    ensures Unprocessed(txs[i..], before) ==
            if txs[i].index in before then Unprocessed(txs[i + 1..], before)
            else [txs[i]] + Unprocessed(txs[i + 1..], before)
  {
    assert txs[i..][0] == txs[i] && txs[i..][1..] == txs[i + 1..];
  }

  lemma NextPrefix(txs: seq<TxAccessList>, processed: set<usize>, i: nat)
    requires i < |txs|
    ensures Unprocessed(txs[..i + 1], processed) ==
            Unprocessed(txs[..i], processed) + if txs[i].index in processed then [] else [txs[i]]
  {
    assert txs[..i + 1] == txs[..i] + [txs[i]];
    UnprocessedSnoc(txs[..i], txs[i], processed);
  }

  lemma NextFold(txs: seq<TxAccessList>, processed: set<usize>, i: nat, wave: seq<TxAccessList>)
    requires i < |txs|
    ensures PassProcessed(txs[i..], processed, wave) ==
            if txs[i].index in processed || ConflictsWithWave(txs[i], wave)
            then PassProcessed(txs[i + 1..], processed, wave)
            else PassProcessed(txs[i + 1..], processed + {txs[i].index}, wave + [txs[i]])
  {
    assert txs[i..][0] == txs[i] && txs[i..][1..] == txs[i + 1..];
  }

  /** A transfer that conflicts with the wave is deferred. */
  lemma ConflictDefers(tx: TxAccessList, later: seq<TxAccessList>, wave: seq<TxAccessList>)
    requires ConflictsWithWave(tx, wave)
    ensures Taken([tx] + later, wave) == Taken(later, wave)
    ensures Deferred([tx] + later, wave) == [tx] + Deferred(later, wave)
  {
    assert ([tx] + later)[1..] == later;
  }

  lemma PassSkips(txs: seq<TxAccessList>, before: set<usize>, i: nat, processed: set<usize>, wave: seq<TxAccessList>)
    requires i < |txs| && PassAt(txs, before, i, processed, wave)
    requires txs[i].index in processed || ConflictsWithWave(txs[i], wave)
    ensures PassAt(txs, before, i + 1, processed, wave)
  {
    var later := Unprocessed(txs[i + 1..], before);
    NextUnprocessed(txs, before, i);
    NextPrefix(txs, processed, i);
    NextFold(txs, processed, i, wave);
    if txs[i].index !in processed {
      ConflictDefers(txs[i], later, wave);
      ConcatAssociative(Unprocessed(txs[..i], processed), [txs[i]], Deferred(later, wave));
    }
  }

  lemma JoinTakes(tx: TxAccessList, later: seq<TxAccessList>, wave: seq<TxAccessList>)
    requires !ConflictsWithWave(tx, wave)
    ensures wave + [tx] + Taken(later, wave + [tx]) == wave + Taken([tx] + later, wave)
    ensures Deferred(later, wave + [tx]) == Deferred([tx] + later, wave)
  {
    assert ([tx] + later)[1..] == later;
    ConcatAssociative(wave, [tx], Taken(later, wave + [tx]));
  }

  lemma IndicesJoin(txs: seq<TxAccessList>, before: set<usize>, i: nat, processed: set<usize>, wave: seq<TxAccessList>)
    requires DistinctIndices(txs) && i < |txs| && IndicesAt(txs, before, i, processed, wave)
    ensures IndicesAt(txs, before, i + 1, processed + {txs[i].index}, wave + [txs[i]])
  {
    assert Indices(wave + [txs[i]]) == Indices(wave) + {txs[i].index};
    assert txs[i].index in Indices(txs);
  }

  lemma TakenJoin(txs: seq<TxAccessList>, before: set<usize>, i: nat, wave: seq<TxAccessList>)
    requires i < |txs| && TakenAt(txs, before, i, wave) && txs[i].index !in before && !ConflictsWithWave(txs[i], wave)
    ensures TakenAt(txs, before, i + 1, wave + [txs[i]])
  {
    NextUnprocessed(txs, before, i);
    JoinTakes(txs[i], Unprocessed(txs[i + 1..], before), wave);
  }

  lemma DeferredJoin(txs: seq<TxAccessList>, before: set<usize>, i: nat, processed: set<usize>, wave: seq<TxAccessList>)
    requires DistinctIndices(txs) && i < |txs| && DeferredAt(txs, before, i, processed, wave)
    requires txs[i].index !in before && !ConflictsWithWave(txs[i], wave)
    ensures DeferredAt(txs, before, i + 1, processed + {txs[i].index}, wave + [txs[i]])
  {
    NextUnprocessed(txs, before, i);
    JoinTakes(txs[i], Unprocessed(txs[i + 1..], before), wave);
    NextPrefix(txs, processed + {txs[i].index}, i);
    UnprocessedIrrelevant(txs[..i], processed, txs[i].index);
  }

  lemma {:induction false} PassJoins(txs: seq<TxAccessList>, before: set<usize>, i: nat, processed: set<usize>,
                                     wave: seq<TxAccessList>)
    requires DistinctIndices(txs) && i < |txs| && PassAt(txs, before, i, processed, wave)
    requires txs[i].index !in processed && !ConflictsWithWave(txs[i], wave)
    ensures PassAt(txs, before, i + 1, processed + {txs[i].index}, wave + [txs[i]])
  {
    IndicesJoin(txs, before, i, processed, wave);
    TakenJoin(txs, before, i, wave);
    DeferredJoin(txs, before, i, processed, wave);
    NextFold(txs, processed, i, wave);
  }

  lemma {:induction false} PassEnds(txs: seq<TxAccessList>, before: set<usize>, processed: set<usize>,
                                    wave: seq<TxAccessList>)
    requires DistinctIndices(txs) && PassAt(txs, before, |txs|, processed, wave)
    ensures wave == Taken(Unprocessed(txs, before), [])
    ensures Unprocessed(txs, processed) == Deferred(Unprocessed(txs, before), [])
    ensures processed == PassProcessed(txs, before, [])
    ensures |processed| + |Unprocessed(txs, processed)| == |txs|
  {
    assert txs[..|txs|] == txs && txs[|txs|..] == [];
    UnprocessedCount(txs, processed);
    assert processed * Indices(txs) == processed;
  }

  /** The conflict test of the inner loop, against the wave's accumulated sets. */
  method ConflictsWithSets(tx: TxAccessList, writeAddresses: set<Address>, readAddresses: set<Address>,
                           writeSlots: Slots, readSlots: Slots, ghost wave: seq<TxAccessList>)
    returns (conflict: bool)
    requires Accumulates(wave, writeAddresses, readAddresses, writeSlots, readSlots)
    ensures conflict <==> ConflictsWithWave(tx, wave)
  {
    var addressConflict :=
      || (exists a | a in tx.writeAddresses :: a in readAddresses || a in writeAddresses)
      || (exists a | a in tx.readAddresses :: a in writeAddresses);
    var slotConflict := AnySlotIn(tx.writeSlots, readSlots);
    if !slotConflict { slotConflict := AnySlotIn(tx.writeSlots, writeSlots); }
    if !slotConflict { slotConflict := AnySlotIn(tx.readSlots, writeSlots); }
    AddressTest(tx, readAddresses, writeAddresses);
    AccumulatedConflict(tx, wave, writeAddresses, readAddresses, writeSlots, readSlots);
    conflict := addressConflict || slotConflict;
  }

  /** One round of the outer loop: fill one wave. */
  method FillWave(txs: seq<TxAccessList>, before: set<usize>) returns (wave: seq<TxAccessList>, processed: set<usize>)
    requires DistinctIndices(txs) && before <= Indices(txs)
    ensures PassAt(txs, before, |txs|, processed, wave)
  {
    wave, processed := [], before;
    var writeAddresses, readAddresses: set<Address> := {}, {};
    var writeSlots, readSlots: Slots := map[], map[];
    PassStarts(txs, before);
    for i := 0 to |txs|
      invariant PassAt(txs, before, i, processed, wave)
      invariant Accumulates(wave, writeAddresses, readAddresses, writeSlots, readSlots)
    {
      var tx := txs[i];
      if tx.index in processed {
        PassSkips(txs, before, i, processed, wave);
        continue;
      }
      var conflict := ConflictsWithSets(tx, writeAddresses, readAddresses, writeSlots, readSlots, wave);
      if conflict {
        PassSkips(txs, before, i, processed, wave);
      } else {
        PassJoins(txs, before, i, processed, wave);
        var writeSlots' := ExtendSlots(writeSlots, tx.writeSlots);
        var readSlots' := ExtendSlots(readSlots, tx.readSlots);
        AccumulateOne(tx, wave, writeAddresses, readAddresses, writeSlots, readSlots, writeSlots', readSlots');
        wave, processed := wave + [tx], processed + {tx.index};
        writeAddresses, readAddresses := writeAddresses + tx.writeAddresses, readAddresses + tx.readAddresses;
        writeSlots, readSlots := writeSlots', readSlots';
      }
    }
  }

  method PartitionWaves(txs: seq<TxAccessList>) returns (waves: seq<seq<TxAccessList>>)
    requires DistinctIndices(txs)
    ensures waves == WavesOf(txs)
    ensures |ProcessedAfter(txs, |waves|)| == |txs|
  {
    waves := [];
    var processed: set<usize> := {};
    ghost var rest := txs;
    UnprocessedAll(txs);
    while |processed| < |txs|
      invariant processed <= Indices(txs) && rest == Unprocessed(txs, processed)
      invariant |processed| + |rest| == |txs|
      invariant waves + WavesOf(rest) == WavesOf(txs)
      invariant processed == ProcessedAfter(txs, |waves|)
      decreases |rest|
    {
      var wave, processed' := FillWave(txs, processed);
      PassEnds(txs, processed, processed', wave);
      DeferredShorter(rest);
      assert waves + [wave] + WavesOf(Deferred(rest, [])) == waves + WavesOf(rest);
      rest, processed, waves := Deferred(rest, []), processed', waves + [wave];
    }
  }

  lemma AddressTest(tx: TxAccessList, seen: set<Address>, written: set<Address>)
    ensures (exists a | a in tx.writeAddresses :: a in seen || a in written)
       <==> tx.writeAddresses * (seen + written) != {}
    ensures (exists a | a in tx.readAddresses :: a in written) <==> tx.readAddresses * written != {}
  {
    if tx.writeAddresses * (seen + written) != {} {
      var a :| a in tx.writeAddresses * (seen + written);
    }
    if a :| a in tx.writeAddresses && (a in seen || a in written) {
      assert a in tx.writeAddresses * (seen + written);
    }
    if a :| a in tx.readAddresses && a in written {
      assert a in tx.readAddresses * written;
    }
  }
}
