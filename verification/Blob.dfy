/** Packing a packet into an EIP-4844 blob, 31 bytes to a field element, and unpacking it. */
module Blob {
  import opened Machine
  import opened State
  import opened Scale
  import opened Packets

  const FIELD_ELEMENTS: nat := 4096
  const BLOB_BYTES: nat := 131072

  /** What the guard admits; element 0 holds the length, so this is one element more than fits. */
  const ADMITTED: nat := 126976
  /** What the 4095 data elements hold. */
  const CAPACITY: nat := 126945

  const BLS_MODULUS: nat := 52435875175126190479447740508185965837690552500527637822603658699938581184513

  datatype BlobError = TooLarge | WrongLength | LengthOutOfRange | Packet(error: PacketError)

  // ---------- the layout ----------

  /** Byte `j` of the blob that packs `raw`. */
  function PackedByte(raw: Bytes, j: nat): byte
    requires |raw| <= ADMITTED
  {
    if j < 32 then
      if 1 <= j < 5 then BigEndian(|raw|, 4)[j - 1] else 0
    else if j % 32 == 0 then 0
    else
      var m := 31 * (j / 32 - 1) + j % 32 - 1;
      if m < |raw| then raw[m] else 0
  }

  function Packed(raw: Bytes): (blob: Bytes)
    requires |raw| <= ADMITTED
    ensures |blob| == BLOB_BYTES && forall j :: 0 <= j < BLOB_BYTES ==> blob[j] == PackedByte(raw, j)
  {
    seq(BLOB_BYTES, j requires 0 <= j < BLOB_BYTES => PackedByte(raw, j))
  }

  /** Where byte `m` of the payload sits. */
  function Position(m: nat): nat {
    32 * (m / 31 + 1) + 1 + m % 31
  }

  /** The payload bytes of a blob, for a claimed length: never more than the elements hold. */
  function Unpacked(blob: Bytes, len: nat): (raw: Bytes)
    requires |blob| == BLOB_BYTES
    ensures |raw| == Min(len, CAPACITY) && forall m :: 0 <= m < |raw| ==> raw[m] == blob[Position(m)]
  {
    seq(Min(len, CAPACITY), m requires 0 <= m < Min(len, CAPACITY) => blob[Position(m)])
  }

  lemma PositionInverse(m: nat)
    requires m < CAPACITY
    ensures 32 <= Position(m) < BLOB_BYTES && Position(m) / 32 == m / 31 + 1 && Position(m) % 32 == 1 + m % 31
  {
  }

  /**
   The layout from the payload's side: its length big-endian in bytes 1 to 4 of element 0, and its byte `m`
   as byte 1 + m % 31 of element 1 + m / 31, as far as the 4096 elements go; all other bytes are zero.
   */
  lemma {:induction false} PackedLayout(raw: Bytes)
    requires |raw| <= 4096 * 31
    ensures Packed(raw)[1..5] == BigEndian(|raw|, 4)
    ensures forall m :: 0 <= m < |raw| && m < 4095 * 31 ==> Packed(raw)[32 * (1 + m / 31) + 1 + m % 31] == raw[m]
    ensures forall j :: (j == 0 || 5 <= j < 32 || (32 <= j < 131072 && j % 32 == 0)) ==> Packed(raw)[j] == 0
    ensures forall j :: 32 <= j < 131072 && j % 32 != 0 && 31 * (j / 32 - 1) + j % 32 - 1 >= |raw|
                        ==> Packed(raw)[j] == 0
  {
    assert Packed(raw)[1..5] == BigEndian(|raw|, 4);
    forall m | 0 <= m < |raw| && m < 4095 * 31 ensures Packed(raw)[32 * (1 + m / 31) + 1 + m % 31] == raw[m] {
      PositionInverse(m);
    }
  }

  // ---------- the loops ----------

  method Pack(raw: Bytes) returns (blob: Bytes)
    requires |raw| <= ADMITTED
    ensures blob == Packed(raw)
  {
    var buffer := new byte[BLOB_BYTES](i => 0);
    var length := BigEndian(|raw|, 4);
    buffer[1], buffer[2], buffer[3], buffer[4] := length[0], length[1], length[2], length[3];
    var rawIdx := 0;
    var i := 1;
    while i < FIELD_ELEMENTS && rawIdx < |raw|
      invariant 1 <= i <= FIELD_ELEMENTS && rawIdx == Min(31 * (i - 1), |raw|)
      invariant forall j :: 0 <= j < 32 * i ==> buffer[j] == PackedByte(raw, j)
      invariant forall j :: 32 * i <= j < BLOB_BYTES ==> buffer[j] == 0
    {
      var start := i * 32;
      buffer[start] := 0;
      var take := Min(|raw| - rawIdx, 31);
      forall b | 0 <= b < take {
        buffer[start + 1 + b] := raw[rawIdx + b];
      }
      forall j | 32 * i <= j < 32 * (i + 1) ensures buffer[j] == PackedByte(raw, j) {
        assert j / 32 == i;
      }
      rawIdx := rawIdx + take;
      i := i + 1;
    }
    forall j | 32 * i <= j < BLOB_BYTES ensures PackedByte(raw, j) == 0 {
      assert j / 32 >= i;
    }
    blob := buffer[..];
  }

  method Unpack(blob: Bytes, len: nat) returns (raw: Bytes)
    requires |blob| == BLOB_BYTES
    ensures raw == Unpacked(blob, len)
  {
    raw := [];
    var remaining := len;
    var i := 1;
    while i < FIELD_ELEMENTS && remaining != 0
      invariant 1 <= i <= FIELD_ELEMENTS && |raw| == Min(31 * (i - 1), len) && remaining == len - |raw|
      invariant forall m :: 0 <= m < |raw| ==> raw[m] == blob[Position(m)]
    {
      var start := i * 32;
      var take := Min(remaining, 31);
      var before := raw;
      raw := raw + blob[start + 1..start + 1 + take];
      forall m | |before| <= m < |raw| ensures raw[m] == blob[Position(m)] {
        assert m / 31 == i - 1;
      }
      remaining := remaining - take;
      i := i + 1;
    }
  }

  // ---------- packing and unpacking ----------

  lemma UnpackPacked(raw: Bytes)
    requires |raw| <= ADMITTED
    ensures Unpacked(Packed(raw), |raw|) == raw[..Min(|raw|, CAPACITY)]
  {
    var out := Unpacked(Packed(raw), |raw|);
    forall m | 0 <= m < |out| ensures out[m] == raw[m] {
      PositionInverse(m);
    }
  }

  /** The guard admits 31 bytes more than come back: unpacking is exact up to 4095 elements and only then. */
  lemma UnpackExactIff(raw: Bytes)
    requires |raw| <= ADMITTED
    ensures Unpacked(Packed(raw), |raw|) == raw <==> |raw| <= 4095 * 31
  {
    UnpackPacked(raw);
  }

  lemma LengthReadBack(raw: Bytes)
    requires |raw| <= ADMITTED
    ensures FromBigEndian(Packed(raw)[1..5]) == |raw|
  {
    Widths();
    assert Packed(raw)[1..5] == BigEndian(|raw|, 4);
    BigEndianInverse(|raw|, 4);
  }

  function Element(blob: Bytes, i: nat): Bytes
    requires |blob| == BLOB_BYTES && i < FIELD_ELEMENTS
  {
    blob[32 * i..32 * i + 32]
  }

  lemma {:induction false} LeadingZero(bs: Bytes)
    requires |bs| > 0 && bs[0] == 0
    ensures FromBigEndian(bs) < Pow256(|bs| - 1)
    decreases |bs|
  {
    if |bs| > 1 { LeadingZero(bs[..|bs| - 1]); }
  }

  /** Every field element of a packed blob, as a big-endian integer, is below the BLS12-381 scalar modulus. */
  lemma ElementsInField(raw: Bytes, i: nat)
    requires |raw| <= ADMITTED && i < FIELD_ELEMENTS
    ensures FromBigEndian(Element(Packed(raw), i)) < BLS_MODULUS
  {
    var e := Element(Packed(raw), i);
    assert e[0] == PackedByte(raw, 32 * i) == 0;
    LeadingZero(e);
    Widths();
    assert 256 * Pow256(31) == TWO_256;
  }

  // ---------- packets ----------

  datatype Kzg = Kzg(commitment: Bytes48, proof: Bytes48)

  /** The packet as it is packed: with the KZG fields zeroed. */
  function Clean(p: BasedMeshWrapper): BasedMeshWrapper {
    p.(kzgCommitment := Zeros(48), kzgProof := Zeros(48))
  }

  function Sealed(p: BasedMeshWrapper, kzg: Option<Kzg>): BasedMeshWrapper {
    match kzg
    case Some(k) => p.(kzgCommitment := k.commitment, kzgProof := k.proof)
    case None => p
  }

  /** The length of the serialized packet; the KZG fields do not matter. */
  function RawLength(p: BasedMeshWrapper): nat {
    |EncodePacket(Clean(p))|
  }

  method ToBlob(p: BasedMeshWrapper) returns (r: Result<Bytes, BlobError>)
    ensures r == if RawLength(p) > ADMITTED then Err(TooLarge) else Ok(Packed(EncodePacket(Clean(p))))
    ensures var raw := EncodePacket(p.(kzgCommitment := Zeros(48), kzgProof := Zeros(48)));
            r == if |raw| > 4096 * 31 then Err(TooLarge) else Ok(Packed(raw))
  {
    var raw := EncodePacket(Clean(p));
    if |raw| > ADMITTED {
      return Err(TooLarge);
    }
    var blob := Pack(raw);
    r := Ok(blob);
  }

  /** The commitment and proof of a blob, or nothing if any step of computing them fails. */
  type KzgOf = Bytes -> Option<Kzg>

  ghost function FromBlobSpec(blob: Bytes, kzg: KzgOf): Result<BasedMeshWrapper, BlobError> {
    if |blob| != BLOB_BYTES then Err(WrongLength)
    else
      var len := FromBigEndian(blob[1..5]);
      if len > ADMITTED then Err(LengthOutOfRange)
      else match FromBytes(Unpacked(blob, len))
        case Err(e) => Err(Packet(e))
        case Ok(p) => Ok(Sealed(p, kzg(blob)))
  }

  method FromBlob(blob: Bytes, kzg: KzgOf) returns (r: Result<BasedMeshWrapper, BlobError>)
    ensures r == FromBlobSpec(blob, kzg)
    ensures r == Err(WrongLength) <==> |blob| != 131072
    ensures r == Err(LengthOutOfRange) <==> |blob| == 131072 && FromBigEndian(blob[1..5]) > 4096 * 31
    ensures r.Ok? ==> r.value.version == 1
                      && (kzg(blob).Some? ==> r.value.kzgCommitment == kzg(blob).value.commitment
                                              && r.value.kzgProof == kzg(blob).value.proof)
  {
    if |blob| != BLOB_BYTES {
      return Err(WrongLength);
    }
    var len := FromBigEndian(blob[1..5]);
    if len > ADMITTED {
      return Err(LengthOutOfRange);
    }
    var raw := Unpack(blob, len);
    match FromBytes(raw)
    case Err(e) => r := Err(Packet(e));
    case Ok(packet) => r := Ok(Sealed(packet, kzg(blob)));
  }

  /** `BasedMeshWrapper::new`: version 1, sealed with the commitment of its own blob if it has one. */
  method New(sourceManifoldId: u64, targetManifolds: U64Vec, stateDiffBlobHash: B256, proofScheme: ProofScheme,
             zkevmProofPayload: ByteVec, executionPayload: ByteVec, kzg: KzgOf)
    returns (p: BasedMeshWrapper)
    ensures p == Built(BasedMeshWrapper(1, sourceManifoldId, targetManifolds, stateDiffBlobHash, Zeros(48), Zeros(48),
                                        proofScheme, zkevmProofPayload, executionPayload), kzg)
    ensures p.version == 1 && p.sourceManifoldId == sourceManifoldId && p.targetManifolds == targetManifolds
    ensures p.stateDiffBlobHash == stateDiffBlobHash && p.proofScheme == proofScheme
    ensures p.zkevmProofPayload == zkevmProofPayload && p.executionPayload == executionPayload
    ensures var raw := EncodePacket(p.(kzgCommitment := Zeros(48), kzgProof := Zeros(48)));
            if |raw| <= 4096 * 31 && kzg(Packed(raw)).Some?
            then p.kzgCommitment == kzg(Packed(raw)).value.commitment && p.kzgProof == kzg(Packed(raw)).value.proof
            else p.kzgCommitment == Zeros(48) && p.kzgProof == Zeros(48)
  {
    p := BasedMeshWrapper(1, sourceManifoldId, targetManifolds, stateDiffBlobHash, Zeros(48), Zeros(48),
                          proofScheme, zkevmProofPayload, executionPayload);
    var blob := ToBlob(p);
    if blob.Ok? {
      p := Sealed(p, kzg(blob.value));
    }
  }

  ghost function Built(fields: BasedMeshWrapper, kzg: KzgOf): BasedMeshWrapper {
    if RawLength(fields) > ADMITTED then fields
    else Sealed(Clean(fields), kzg(Packed(EncodePacket(Clean(fields)))))
  }

  /** What comes back from the blob of any packet the guard admits. */
  lemma {:induction false} BlobComesBack(p: BasedMeshWrapper, kzg: KzgOf)
    requires RawLength(p) <= ADMITTED
    ensures var blob := Packed(EncodePacket(Clean(p)));
            FromBlobSpec(blob, kzg) ==
            if RawLength(p) > CAPACITY then Err(Packet(Malformed))
            else if p.version != 1 then Err(Packet(UnsupportedVersion))
            else Ok(Sealed(Clean(p), kzg(blob)))
  {
    var raw := EncodePacket(Clean(p));
    LengthReadBack(raw);
    UnpackPacked(raw);
    if |raw| > CAPACITY {
      TruncatedPacket(Clean(p), CAPACITY);
    } else {
      assert raw[..|raw|] == raw;
      assert raw + [] == raw;
      FromBytesOfPacket(Clean(p), []);
    }
  }

  /**
   Blob round trip, exactly: a packet the guard admits comes back from its blob as it was if and only
   if it fits the 4095 data elements, has version 1, and carries the KZG fields of its own blob.
   */
  lemma BlobRoundTripIff(p: BasedMeshWrapper, kzg: KzgOf)
    requires RawLength(p) <= ADMITTED
    ensures var blob := Packed(EncodePacket(Clean(p)));
            FromBlobSpec(blob, kzg) == Ok(p)
            <==> RawLength(p) <= CAPACITY && p.version == 1 && p == Sealed(Clean(p), kzg(blob))
  {
    BlobComesBack(p, kzg);
  }

  /** A packet made by `New` carries the KZG fields of its own blob, so only its size matters. */
  lemma {:induction false} NewPacketRoundTrip(fields: BasedMeshWrapper, kzg: KzgOf)
    requires fields.version == 1 && RawLength(fields) <= ADMITTED
    ensures var p := Built(fields, kzg);
            && RawLength(p) == RawLength(fields)
            && (FromBlobSpec(Packed(EncodePacket(Clean(p))), kzg) == Ok(p) <==> RawLength(p) <= CAPACITY)
  {
    var p := Built(fields, kzg);
    assert Clean(p) == Clean(fields);
    BlobRoundTripIff(p, kzg);
  }

  /** With an empty target list and proof, everything but the execution payload takes 144 bytes. */
  lemma PacketSize(p: BasedMeshWrapper)
    requires p.targetManifolds == [] && p.zkevmProofPayload == [] && TWO_14 <= |p.executionPayload| < TWO_30
    ensures |EncodePacket(p)| == 144 + |p.executionPayload|
  {
    PacketWritten(p, []);
    assert |EncodeU64Vec([])| == 1 && |EncodeBytes([])| == 1;
    assert |EncodeBytes(p.executionPayload)| == 4 + |p.executionPayload|;
  }

  /** One byte past what fits, and still inside the guard: the packet is packed, and cannot be unpacked. */
  lemma {:induction false} AdmittedButLost(kzg: KzgOf) returns (p: BasedMeshWrapper)
    ensures p.version == 1 && CAPACITY < RawLength(p) <= ADMITTED
    ensures FromBlobSpec(Packed(EncodePacket(Clean(p))), kzg) == Err(Packet(Malformed))
  {
    p := BasedMeshWrapper(1, 0, [], Zeros(32), Zeros(48), Zeros(48), SpruceSp1Bls12381, [], Zeros(CAPACITY + 1 - 144));
    PacketSize(Clean(p));
    BlobComesBack(p, kzg);
  }
}
