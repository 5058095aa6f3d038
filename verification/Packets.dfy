/** The SCALE codecs of the packet, message and witness types, field by field. */
module Packets {
  import opened Machine
  import opened State
  import opened Scale

  type Bytes48 = b: Bytes | |b| == 48 witness Zeros(48)
  type Bytes31 = b: Bytes | |b| == 31 witness Zeros(31)

  datatype ProofScheme = Groth16Bn254 | SpruceSp1Bls12381 | RiscZeroBonsai | BiniusBinaryStark | Plonky3Blake3

  datatype BasedMeshWrapper = BasedMeshWrapper(
    version: byte,
    sourceManifoldId: u64,
    targetManifolds: U64Vec,
    stateDiffBlobHash: B256,
    kzgCommitment: Bytes48,
    kzgProof: Bytes48,
    proofScheme: ProofScheme,
    zkevmProofPayload: ByteVec,
    executionPayload: ByteVec)

  datatype CrossManifoldMessage = CrossManifoldMessage(
    messageId: B256,
    sender: Address,
    recipient: Address,
    payload: ByteVec,
    timestamp: u64)

  datatype VerkleNodeProof = VerkleNodeProof(stem: Bytes31, commitPoint: B256, suffixIndex: byte, value: B256)

  /** An account witness whose code the encoder accepts. */
  type EncodableAccount = a: AccountWitness | |a.code| < TWO_32 witness DEFAULT_ACCOUNT

  // ---------- enumerations and single bytes ----------

  function EncodeByte(b: byte): Bytes {
    [b]
  }

  function DecodeByte(input: Bytes): Parse<byte> {
    if input == [] then NoParse else Parsed(input[0], input[1..])
  }

  lemma ByteRoundTrip(b: byte, rest: Bytes)
    ensures DecodeByte(EncodeByte(b) + rest) == Parsed(b, rest)
  {
  }

  lemma ByteCanonical(input: Bytes)
    requires DecodeByte(input).Parsed?
    ensures input == EncodeByte(DecodeByte(input).value) + DecodeByte(input).rest
  {
  }

  function SchemeIndex(s: ProofScheme): byte {
    match s
    case Groth16Bn254 => 2
    case SpruceSp1Bls12381 => 3
    case RiscZeroBonsai => 4
    case BiniusBinaryStark => 5
    case Plonky3Blake3 => 6
  }

  function EncodeScheme(s: ProofScheme): Bytes {
    [SchemeIndex(s)]
  }

  function DecodeScheme(input: Bytes): Parse<ProofScheme> {
    var (b, rest) :- DecodeByte(input);
    match b
    case 2 => Parsed(Groth16Bn254, rest)
    case 3 => Parsed(SpruceSp1Bls12381, rest)
    case 4 => Parsed(RiscZeroBonsai, rest)
    case 5 => Parsed(BiniusBinaryStark, rest)
    case 6 => Parsed(Plonky3Blake3, rest)
    case _ => NoParse
  }

  lemma SchemeRoundTrip(s: ProofScheme, rest: Bytes)
    ensures DecodeScheme(EncodeScheme(s) + rest) == Parsed(s, rest)
  {
  }

  lemma SchemeCanonical(input: Bytes)
    requires DecodeScheme(input).Parsed?
    ensures input == EncodeScheme(DecodeScheme(input).value) + DecodeScheme(input).rest
  {
  }

  // ---------- records: a list of encoded fields, written one after the other ----------

  function Written(fields: seq<Bytes>): Bytes {
    if fields == [] then [] else fields[0] + Written(fields[1..])
  }

  lemma WrittenCons(field: Bytes, fields: seq<Bytes>, rest: Bytes)
    ensures Written([field] + fields) + rest == field + (Written(fields) + rest)
  {
    assert ([field] + fields)[1..] == fields;
  }

  function MessageFields(m: CrossManifoldMessage): seq<Bytes> {
    [m.messageId, EncodeAddress(m.sender), EncodeAddress(m.recipient), EncodeBytes(m.payload), EncodeU64(m.timestamp)]
  }

  function EncodeMessage(m: CrossManifoldMessage): Bytes {
    Written(MessageFields(m))
  }

  function DecodeMessage(input: Bytes): Parse<CrossManifoldMessage> {
    var (messageId, input1) :- DecodeFixed(32, input);
    var (sender, input2) :- DecodeAddress(input1);
    var (recipient, input3) :- DecodeAddress(input2);
    var (payload, input4) :- DecodeBytes(input3);
    var (timestamp, rest) :- DecodeU64(input4);
    Parsed(CrossManifoldMessage(messageId, sender, recipient, payload, timestamp), rest)
  }

  lemma MessageWritten(m: CrossManifoldMessage, rest: Bytes)
    ensures EncodeMessage(m) + rest ==
            m.messageId + (EncodeAddress(m.sender) + (EncodeAddress(m.recipient)
              + (EncodeBytes(m.payload) + (EncodeU64(m.timestamp) + rest))))
  {
    var f := MessageFields(m);
    assert f == [f[0]] + ([f[1]] + ([f[2]] + ([f[3]] + ([f[4]] + []))));
    WrittenCons(f[0], [f[1]] + ([f[2]] + ([f[3]] + ([f[4]] + []))), rest);
    WrittenCons(f[1], [f[2]] + ([f[3]] + ([f[4]] + [])), rest);
    WrittenCons(f[2], [f[3]] + ([f[4]] + []), rest);
    WrittenCons(f[3], [f[4]] + [], rest);
    WrittenCons(f[4], [], rest);
    assert Written([]) + rest == rest;
  }

  lemma MessageRoundTrip(m: CrossManifoldMessage, rest: Bytes)
    ensures DecodeMessage(EncodeMessage(m) + rest) == Parsed(m, rest)
  {
    MessageWritten(m, rest);
    var tail4 := EncodeU64(m.timestamp) + rest;
    var tail3 := EncodeBytes(m.payload) + tail4;
    var tail2 := EncodeAddress(m.recipient) + tail3;
    var tail1 := EncodeAddress(m.sender) + tail2;
    FixedRoundTrip(m.messageId, tail1);
    AddressRoundTrip(m.sender, tail2);
    AddressRoundTrip(m.recipient, tail3);
    BytesRoundTrip(m.payload, tail4);
    U64RoundTrip(m.timestamp, rest);
  }

  /** Nothing but the encoding of a message decodes to it. */
  lemma MessageCanonical(input: Bytes)
    requires DecodeMessage(input).Parsed?
    ensures input == EncodeMessage(DecodeMessage(input).value) + DecodeMessage(input).rest
  {
    var p1 := DecodeFixed(32, input);
    var p2 := DecodeAddress(p1.rest);
    var p3 := DecodeAddress(p2.rest);
    var p4 := DecodeBytes(p3.rest);
    AddressCanonical(p1.rest);
    AddressCanonical(p2.rest);
    BytesCanonical(p3.rest);
    U64Canonical(p4.rest);
    MessageWritten(DecodeMessage(input).value, DecodeMessage(input).rest);
  }

  // ---------- account witnesses and Verkle proofs ----------

  function AccountFields(a: EncodableAccount): seq<Bytes> {
    [EncodeU256(a.balance), EncodeU64(a.nonce), a.codeHash, EncodeBytes(a.code), EncodeU64s(a.quadrants)]
  }

  function EncodeAccount(a: EncodableAccount): Bytes {
    Written(AccountFields(a))
  }

  function DecodeAccount(input: Bytes): Parse<EncodableAccount> {
    var (balance, input1) :- DecodeU256(input);
    var (nonce, input2) :- DecodeU64(input1);
    var (codeHash, input3) :- DecodeFixed(32, input2);
    var (code, input4) :- DecodeBytes(input3);
    var (quadrants, rest) :- DecodeU64s(4, input4);
    Parsed(AccountWitness(balance, nonce, codeHash, code, quadrants), rest)
  }

  lemma AccountWritten(a: EncodableAccount, rest: Bytes)
    ensures EncodeAccount(a) + rest ==
            EncodeU256(a.balance) + (EncodeU64(a.nonce) + (a.codeHash
              + (EncodeBytes(a.code) + (EncodeU64s(a.quadrants) + rest))))
  {
    var f := AccountFields(a);
    assert f == [f[0]] + ([f[1]] + ([f[2]] + ([f[3]] + ([f[4]] + []))));
    WrittenCons(f[0], [f[1]] + ([f[2]] + ([f[3]] + ([f[4]] + []))), rest);
    WrittenCons(f[1], [f[2]] + ([f[3]] + ([f[4]] + [])), rest);
    WrittenCons(f[2], [f[3]] + ([f[4]] + []), rest);
    WrittenCons(f[3], [f[4]] + [], rest);
    WrittenCons(f[4], [], rest);
    assert Written([]) + rest == rest;
  }

  lemma AccountRoundTrip(a: EncodableAccount, rest: Bytes)
    ensures DecodeAccount(EncodeAccount(a) + rest) == Parsed(a, rest)
  {
    AccountWritten(a, rest);
    var tail4 := EncodeU64s(a.quadrants) + rest;
    var tail3 := EncodeBytes(a.code) + tail4;
    var tail2 := a.codeHash + tail3;
    var tail1 := EncodeU64(a.nonce) + tail2;
    U256RoundTrip(a.balance, tail1);
    U64RoundTrip(a.nonce, tail2);
    FixedRoundTrip(a.codeHash, tail3);
    BytesRoundTrip(a.code, tail4);
    U64sRoundTrip(a.quadrants, rest);
  }

  lemma AccountCanonical(input: Bytes)
    requires DecodeAccount(input).Parsed?
    ensures input == EncodeAccount(DecodeAccount(input).value) + DecodeAccount(input).rest
  {
    var p1 := DecodeU256(input);
    var p2 := DecodeU64(p1.rest);
    var p3 := DecodeFixed(32, p2.rest);
    var p4 := DecodeBytes(p3.rest);
    U256Canonical(input);
    U64Canonical(p1.rest);
    BytesCanonical(p3.rest);
    U64sCanonical(4, p4.rest);
    AccountWritten(DecodeAccount(input).value, DecodeAccount(input).rest);
  }

  function EncodeProof(v: VerkleNodeProof): Bytes {
    Written([v.stem, v.commitPoint, EncodeByte(v.suffixIndex), v.value])
  }

  function DecodeProof(input: Bytes): Parse<VerkleNodeProof> {
    var (stem, input1) :- DecodeFixed(31, input);
    var (commitPoint, input2) :- DecodeFixed(32, input1);
    var (suffixIndex, input3) :- DecodeByte(input2);
    var (value, rest) :- DecodeFixed(32, input3);
    Parsed(VerkleNodeProof(stem, commitPoint, suffixIndex, value), rest)
  }

  lemma ProofWritten(v: VerkleNodeProof, rest: Bytes)
    ensures EncodeProof(v) + rest == v.stem + (v.commitPoint + (EncodeByte(v.suffixIndex) + (v.value + rest)))
  {
    var f := [v.stem, v.commitPoint, EncodeByte(v.suffixIndex), v.value];
    assert f == [f[0]] + ([f[1]] + ([f[2]] + ([f[3]] + [])));
    WrittenCons(f[0], [f[1]] + ([f[2]] + ([f[3]] + [])), rest);
    WrittenCons(f[1], [f[2]] + ([f[3]] + []), rest);
    WrittenCons(f[2], [f[3]] + [], rest);
    WrittenCons(f[3], [], rest);
    assert Written([]) + rest == rest;
  }

  lemma ProofRoundTrip(v: VerkleNodeProof, rest: Bytes)
    ensures DecodeProof(EncodeProof(v) + rest) == Parsed(v, rest)
  {
    ProofWritten(v, rest);
    var tail3 := v.value + rest;
    var tail2 := EncodeByte(v.suffixIndex) + tail3;
    var tail1 := v.commitPoint + tail2;
    FixedRoundTrip(v.stem, tail1);
    FixedRoundTrip(v.commitPoint, tail2);
    ByteRoundTrip(v.suffixIndex, tail3);
    FixedRoundTrip(v.value, rest);
  }

  // ---------- packets ----------

  function PacketFields(p: BasedMeshWrapper): seq<Bytes> {
    [EncodeByte(p.version), EncodeU64(p.sourceManifoldId), EncodeU64Vec(p.targetManifolds), p.stateDiffBlobHash,
     p.kzgCommitment, p.kzgProof, EncodeScheme(p.proofScheme), EncodeBytes(p.zkevmProofPayload),
     EncodeBytes(p.executionPayload)]
  }

  function EncodePacket(p: BasedMeshWrapper): Bytes {
    Written(PacketFields(p))
  }

  function DecodePacket(input: Bytes): Parse<BasedMeshWrapper> {
    var (version, input1) :- DecodeByte(input);
    var (sourceManifoldId, input2) :- DecodeU64(input1);
    var (targetManifolds, input3) :- DecodeU64Vec(input2);
    var (stateDiffBlobHash, input4) :- DecodeFixed(32, input3);
    var (kzgCommitment, input5) :- DecodeFixed(48, input4);
    var (kzgProof, input6) :- DecodeFixed(48, input5);
    var (proofScheme, input7) :- DecodeScheme(input6);
    var (zkevmProofPayload, input8) :- DecodeBytes(input7);
    var (executionPayload, rest) :- DecodeBytes(input8);
    Parsed(BasedMeshWrapper(version, sourceManifoldId, targetManifolds, stateDiffBlobHash, kzgCommitment, kzgProof,
                            proofScheme, zkevmProofPayload, executionPayload), rest)
  }

  /** The last four fields, after the fixed-size ones. */
  function PacketTail(p: BasedMeshWrapper, rest: Bytes): Bytes {
    p.kzgProof + (EncodeScheme(p.proofScheme)
      + (EncodeBytes(p.zkevmProofPayload) + (EncodeBytes(p.executionPayload) + rest)))
  }

  lemma PacketTailWritten(p: BasedMeshWrapper, rest: Bytes)
    ensures Written(PacketFields(p)[5..]) + rest == PacketTail(p, rest)
  {
    var f := PacketFields(p);
    assert f[5..] == [f[5]] + ([f[6]] + ([f[7]] + ([f[8]] + [])));
    WrittenCons(f[5], [f[6]] + ([f[7]] + ([f[8]] + [])), rest);
    WrittenCons(f[6], [f[7]] + ([f[8]] + []), rest);
    WrittenCons(f[7], [f[8]] + [], rest);
    WrittenCons(f[8], [], rest);
    assert Written([]) + rest == rest;
  }

  lemma PacketWritten(p: BasedMeshWrapper, rest: Bytes)
    ensures EncodePacket(p) + rest ==
            EncodeByte(p.version) + (EncodeU64(p.sourceManifoldId) + (EncodeU64Vec(p.targetManifolds)
              + (p.stateDiffBlobHash + (p.kzgCommitment + PacketTail(p, rest)))))
  {
    var f := PacketFields(p);
    var g := f[5..];
    assert f == [f[0]] + ([f[1]] + ([f[2]] + ([f[3]] + ([f[4]] + g))));
    WrittenCons(f[0], [f[1]] + ([f[2]] + ([f[3]] + ([f[4]] + g))), rest);
    WrittenCons(f[1], [f[2]] + ([f[3]] + ([f[4]] + g)), rest);
    WrittenCons(f[2], [f[3]] + ([f[4]] + g), rest);
    WrittenCons(f[3], [f[4]] + g, rest);
    WrittenCons(f[4], g, rest);
    PacketTailWritten(p, rest);
  }

  /** Decoding an encoded packet followed by anything gives the packet and what follows. */
  lemma PacketRoundTrip(p: BasedMeshWrapper, rest: Bytes)
    ensures DecodePacket(EncodePacket(p) + rest) == Parsed(p, rest)
  {
    PacketWritten(p, rest);
    var tail8 := EncodeBytes(p.executionPayload) + rest;
    var tail7 := EncodeBytes(p.zkevmProofPayload) + tail8;
    var tail6 := EncodeScheme(p.proofScheme) + tail7;
    var tail5 := p.kzgProof + tail6;
    var tail4 := p.kzgCommitment + tail5;
    var tail3 := p.stateDiffBlobHash + tail4;
    var tail2 := EncodeU64Vec(p.targetManifolds) + tail3;
    var tail1 := EncodeU64(p.sourceManifoldId) + tail2;
    ByteRoundTrip(p.version, tail1);
    U64RoundTrip(p.sourceManifoldId, tail2);
    U64VecRoundTrip(p.targetManifolds, tail3);
    FixedRoundTrip(p.stateDiffBlobHash, tail4);
    FixedRoundTrip(p.kzgCommitment, tail5);
    FixedRoundTrip(p.kzgProof, tail6);
    SchemeRoundTrip(p.proofScheme, tail7);
    BytesRoundTrip(p.zkevmProofPayload, tail8);
    BytesRoundTrip(p.executionPayload, rest);
  }

  /** Nothing but the encoding of a packet decodes to it. */
  lemma PacketCanonical(input: Bytes)
    requires DecodePacket(input).Parsed?
    ensures input == EncodePacket(DecodePacket(input).value) + DecodePacket(input).rest
  {
    var p1 := DecodeByte(input);
    var p2 := DecodeU64(p1.rest);
    var p3 := DecodeU64Vec(p2.rest);
    var p4 := DecodeFixed(32, p3.rest);
    var p5 := DecodeFixed(48, p4.rest);
    var p6 := DecodeFixed(48, p5.rest);
    var p7 := DecodeScheme(p6.rest);
    var p8 := DecodeBytes(p7.rest);
    ByteCanonical(input);
    U64Canonical(p1.rest);
    U64VecCanonical(p2.rest);
    SchemeCanonical(p6.rest);
    BytesCanonical(p7.rest);
    BytesCanonical(p8.rest);
    PacketWritten(DecodePacket(input).value, DecodePacket(input).rest);
  }

  lemma NoPacketExtends(q: BasedMeshWrapper, p: BasedMeshWrapper, more: Bytes)
    requires EncodePacket(q) + more == EncodePacket(p)
    ensures q == p && more == []
  {
    PacketRoundTrip(q, more);
    PacketRoundTrip(p, []);
    assert EncodePacket(p) + [] == EncodePacket(p);
  }

  /** No proper prefix of an encoded packet decodes at all. */
  lemma TruncatedPacket(p: BasedMeshWrapper, n: nat)
    requires n < |EncodePacket(p)|
    ensures DecodePacket(EncodePacket(p)[..n]).NoParse?
  {
    var code := EncodePacket(p);
    var cut := DecodePacket(code[..n]);
    if cut.Parsed? {
      PacketCanonical(code[..n]);
      SplitAgain(code, n, EncodePacket(cut.value), cut.rest);
      NoPacketExtends(cut.value, p, cut.rest + code[n..]);
    }
  }

  lemma SplitAgain(code: Bytes, n: nat, head: Bytes, rest: Bytes)
    requires n < |code| && code[..n] == head + rest
    ensures head + (rest + code[n..]) == code && rest + code[n..] != []
  {
    assert code == code[..n] + code[n..];
  }

  // ---------- from_bytes ----------

  datatype PacketError = Malformed | UnsupportedVersion

  function FromBytes(data: Bytes): Result<BasedMeshWrapper, PacketError> {
    match DecodePacket(data)
    case NoParse => Err(Malformed)
    case Parsed(p, _) => if p.version != 1 then Err(UnsupportedVersion) else Ok(p)
  }

  /** `from_bytes` looks no further than the packet: bytes after it are ignored. */
  lemma FromBytesOfPacket(p: BasedMeshWrapper, rest: Bytes)
    ensures FromBytes(EncodePacket(p) + rest) == if p.version == 1 then Ok(p) else Err(UnsupportedVersion)
  {
    PacketRoundTrip(p, rest);
  }

  /** And it finds the data malformed exactly when it does not begin with a packet. */
  lemma MalformedIff(data: Bytes)
    ensures FromBytes(data) == Err(Malformed) <==> forall p, rest: Bytes :: data != EncodePacket(p) + rest
  {
    if DecodePacket(data).Parsed? {
      PacketCanonical(data);
    } else {
      forall p, rest: Bytes ensures data != EncodePacket(p) + rest {
        PacketRoundTrip(p, rest);
      }
    }
  }
}
