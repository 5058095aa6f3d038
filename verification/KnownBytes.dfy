/** Bytes of known values: byte orders, compact modes, scheme numbers, and one record of each kind field by field. */
module KnownBytes {
  import opened Machine
  import opened State
  import opened Scale
  import opened Packets

  // ---------- integers ----------

  /** Big-endian is little-endian read backwards. */
  lemma {:induction false} BigEndianReversed(n: nat, w: nat, i: nat)
    requires i < w
    ensures BigEndian(n, w)[i] == LittleEndian(n, w)[w - 1 - i]
  {
    if i < w - 1 { BigEndianReversed(n / 256, w - 1, i); }
  }

  lemma {:induction false} SmallLittleEndian(n: nat, w: nat)
    requires n < 256 && w > 0
    ensures LittleEndian(n, w) == [n as byte] + Zeros(w - 1)
  {
    if w > 1 {
      SmallLittleEndian(0, w - 1);
    }
  }

  /** Little-endian: the lowest byte first. */
  lemma KnownU64s()
    ensures EncodeU64(1) == [1] + Zeros(7) && EncodeU64(0x0201) == [1, 2] + Zeros(6)
  {
    SmallLittleEndian(1, 8);
    SmallLittleEndian(2, 7);
    assert EncodeU64(0x0201) == [1] + LittleEndian(2, 7);
  }

  /** Addresses and 256-bit integers are big-endian: a small one is all zeros but its last byte. */
  lemma SmallBigEndian(n: nat, w: nat)
    requires n < 256 && w > 0
    ensures BigEndian(n, w) == Zeros(w - 1) + [n as byte]
  {
    SmallLittleEndian(n, w);
    forall i | 0 <= i < w ensures BigEndian(n, w)[i] == (Zeros(w - 1) + [n as byte])[i] {
      BigEndianReversed(n, w, i);
    }
  }

  lemma KnownBigEndian()
    ensures BigEndian(0x0102, 2) == [1, 2] && BigEndian(0x01020304, 4) == [1, 2, 3, 4]
  {
  }

  // ---------- compact lengths ----------

  /** One value of each of the four modes, and both ends of the first two. */
  lemma KnownLengths()
    ensures EncodeCompact(0) == [0] && EncodeCompact(1) == [4] && EncodeCompact(63) == [252]
    ensures EncodeCompact(64) == [1, 1] && EncodeCompact(69) == [21, 1] && EncodeCompact(16383) == [253, 255]
    ensures EncodeCompact(16384) == [2, 0, 1, 0] && EncodeCompact(65535) == [254, 255, 3, 0]
    ensures EncodeCompact(0x4000_0000) == [3, 0, 0, 0, 64]
  {
  }

  // ---------- enumerations ----------

  /** Each proof scheme is written as its selector. */
  lemma KnownSchemes()
    ensures EncodeScheme(Groth16Bn254) == [2] && EncodeScheme(SpruceSp1Bls12381) == [3]
    ensures EncodeScheme(RiscZeroBonsai) == [4] && EncodeScheme(BiniusBinaryStark) == [5]
    ensures EncodeScheme(Plonky3Blake3) == [6]
  {
  }

  // ---------- records ----------

  function Fill(b: byte, n: nat): (r: Bytes)
    ensures |r| == n && forall i :: 0 <= i < n ==> r[i] == b
  {
    seq(n, i => b)
  }

  lemma ShortBytes(b: byte)
    ensures EncodeBytes([b]) == [4, b]
  {
    KnownLengths();
  }

  /** A message: id, sender, recipient, payload, timestamp. */
  lemma KnownMessage()
    ensures EncodeMessage(CrossManifoldMessage(Fill(9, 32), 1, 2, [7], 3))
         == Fill(9, 32) + (Zeros(19) + [1] + (Zeros(19) + [2] + ([4, 7] + ([3] + Zeros(7)))))
  {
    var m := CrossManifoldMessage(Fill(9, 32), 1, 2, [7], 3);
    MessageWritten(m, []);
    SmallBigEndian(1, 20);
    SmallBigEndian(2, 20);
    SmallLittleEndian(3, 8);
    ShortBytes(7);
    NothingAfter(EncodeMessage(m));
    NothingAfter(EncodeU64(m.timestamp));
  }

  /** An account witness: balance, nonce, code hash, code, quadrants. */
  lemma KnownAccount()
    ensures EncodeAccount(AccountWitness(1, 2, Fill(9, 32), [7], [3, 4, 5, 6]))
         == Zeros(31) + [1] + ([2] + Zeros(7) + (Fill(9, 32) + ([4, 7]
            + ([3] + Zeros(7) + [4] + Zeros(7) + [5] + Zeros(7) + [6] + Zeros(7)))))
  {
    var a := AccountWitness(1, 2, Fill(9, 32), [7], [3, 4, 5, 6]);
    AccountWritten(a, []);
    SmallBigEndian(1, 32);
    SmallLittleEndian(2, 8);
    ShortBytes(7);
    KnownQuadrants();
    NothingAfter(EncodeAccount(a));
    NothingAfter(EncodeU64s(a.quadrants));
  }

  lemma NothingAfter(bs: Bytes)
    ensures bs + [] == bs
  {
  }

  lemma KnownQuadrants()
    ensures EncodeU64s([3, 4, 5, 6]) == [3] + Zeros(7) + [4] + Zeros(7) + [5] + Zeros(7) + [6] + Zeros(7)
  {
    SmallLittleEndian(3, 8);
    SmallLittleEndian(4, 8);
    SmallLittleEndian(5, 8);
    SmallLittleEndian(6, 8);
    assert [3, 4, 5, 6][1..] == [4, 5, 6] && [4, 5, 6][1..] == [5, 6] && [5, 6][1..] == [6] && [6][1..] == [];
    assert EncodeU64s([6]) == EncodeU64(6) + [];
    assert EncodeU64s([5, 6]) == EncodeU64(5) + EncodeU64s([6]);
  }

  /** A Verkle proof: stem, commit point, suffix index, value. */
  lemma KnownProof()
    ensures EncodeProof(VerkleNodeProof(Fill(1, 31), Fill(2, 32), 3, Fill(4, 32)))
         == Fill(1, 31) + Fill(2, 32) + [3] + Fill(4, 32)
  {
    var v := VerkleNodeProof(Fill(1, 31), Fill(2, 32), 3, Fill(4, 32));
    ProofWritten(v, []);
    assert EncodeProof(v) + [] == EncodeProof(v);
  }

  const PACKET := BasedMeshWrapper(1, 2, [3], Fill(10, 32), Fill(20, 48), Fill(30, 48), Groth16Bn254, [7], [8])

  /** A packet: version, source, targets, blob hash, KZG commitment and proof, scheme, proof and execution payload. */
  lemma KnownPacket()
    ensures EncodePacket(PACKET)
         == [1] + ([2] + Zeros(7) + ([4] + [3] + Zeros(7) + (Fill(10, 32) + (Fill(20, 48)
            + (Fill(30, 48) + ([2] + ([4, 7] + [4, 8])))))))
  {
    PacketWritten(PACKET, []);
    SmallLittleEndian(2, 8);
    KnownTargets();
    ShortBytes(7);
    ShortBytes(8);
    NothingAfter(EncodePacket(PACKET));
    NothingAfter(EncodeBytes(PACKET.executionPayload));
  }

  lemma KnownTargets()
    ensures EncodeU64Vec([3]) == [4] + [3] + Zeros(7)
  {
    KnownLengths();
    SmallLittleEndian(3, 8);
    assert [3][1..] == [];
  }
}
