/** The parts of the SCALE format the packets use ('Length and Compact Encoding' among them). */
module Scale {
  import opened Machine
  import Lists

  type Bytes = seq<byte>

  /** A decoded value and the bytes after it, or a decoding error. */
  datatype Parse<+T> = Parsed(value: T, rest: Bytes) | NoParse {
    predicate IsFailure() { NoParse? }
    function PropagateFailure<U>(): Parse<U> requires NoParse? { NoParse }
    function Extract(): (T, Bytes) requires Parsed? { (value, rest) }
  }

  // ---------- integers ----------

  function Pow256(w: nat): nat {
    if w == 0 then 1 else 256 * Pow256(w - 1)
  }

  function LittleEndian(n: nat, w: nat): (bs: Bytes)
    ensures |bs| == w
  {
    if w == 0 then [] else [(n % 256) as byte] + LittleEndian(n / 256, w - 1)
  }

  function FromLittleEndian(bs: Bytes): nat {
    if bs == [] then 0 else bs[0] as nat + 256 * FromLittleEndian(bs[1..])
  }

  function BigEndian(n: nat, w: nat): (bs: Bytes)
    ensures |bs| == w
  {
    if w == 0 then [] else BigEndian(n / 256, w - 1) + [(n % 256) as byte]
  }

  function FromBigEndian(bs: Bytes): nat {
    if bs == [] then 0 else 256 * FromBigEndian(bs[..|bs| - 1]) + bs[|bs| - 1] as nat
  }

  lemma Digits(d: nat, x: nat)
    requires d < 256
    ensures (d + 256 * x) % 256 == d && (d + 256 * x) / 256 == x
  {
  }

  lemma {:induction false} LittleEndianInverse(n: nat, w: nat)
    requires n < Pow256(w)
    ensures FromLittleEndian(LittleEndian(n, w)) == n
  {
    if w > 0 { LittleEndianInverse(n / 256, w - 1); }
  }

  lemma {:induction false} FromLittleEndianInverse(bs: Bytes)
    ensures FromLittleEndian(bs) < Pow256(|bs|)
    ensures LittleEndian(FromLittleEndian(bs), |bs|) == bs
  {
    if bs != [] {
      FromLittleEndianInverse(bs[1..]);
      Digits(bs[0] as nat, FromLittleEndian(bs[1..]));
    }
  }

  lemma {:induction false} BigEndianInverse(n: nat, w: nat)
    requires n < Pow256(w)
    ensures FromBigEndian(BigEndian(n, w)) == n
  {
    if w > 0 {
      BigEndianInverse(n / 256, w - 1);
      assert BigEndian(n, w)[..w - 1] == BigEndian(n / 256, w - 1);
    }
  }

  lemma {:induction false} FromBigEndianInverse(bs: Bytes)
    ensures FromBigEndian(bs) < Pow256(|bs|)
    ensures BigEndian(FromBigEndian(bs), |bs|) == bs
  {
    if bs != [] {
      FromBigEndianInverse(bs[..|bs| - 1]);
      Digits(bs[|bs| - 1] as nat, FromBigEndian(bs[..|bs| - 1]));
      assert bs == bs[..|bs| - 1] + [bs[|bs| - 1]];
    }
  }

  lemma ShortWidths()
    ensures Pow256(2) == 0x1_0000 && Pow256(4) == 0x1_0000_0000
  {
    assert Pow256(3) == 0x100_0000;
  }

  lemma Widths()
    ensures Pow256(8) == TWO_64
    ensures Pow256(20) == TWO_160 && Pow256(32) == TWO_256
  {
    assert Pow256(3) == 0x100_0000 && Pow256(4) == 0x1_0000_0000;
    assert Pow256(7) == 0x100_0000_0000_0000 && Pow256(8) == TWO_64;
    assert Pow256(12) == 0x1_0000_0000_0000_0000_0000_0000;
    assert Pow256(16) == 0x1_0000_0000_0000_0000_0000_0000_0000_0000;
    assert Pow256(20) == TWO_160;
    assert Pow256(24) == 0x1_0000_0000_0000_0000_0000_0000_0000_0000_0000_0000_0000_0000;
    assert Pow256(28) == 0x1_0000_0000_0000_0000_0000_0000_0000_0000_0000_0000_0000_0000_0000_0000;
  }

  // ---------- fixed-width values ----------

  function DecodeFixed(w: nat, input: Bytes): (p: Parse<Bytes>)
    ensures p.Parsed? ==> |p.value| == w && input == p.value + p.rest
    ensures p.NoParse? <==> |input| < w
  {
    if |input| < w then NoParse else Parsed(input[..w], input[w..])
  }

  lemma FixedRoundTrip(bs: Bytes, rest: Bytes)
    ensures DecodeFixed(|bs|, bs + rest) == Parsed(bs, rest)
  {
  }

  /** An unsigned integer of `w` bytes, little-endian. */
  function DecodeUint(w: nat, input: Bytes): (p: Parse<nat>)
    ensures p.Parsed? ==> p.value < Pow256(w)
  {
    var (bs, rest) :- DecodeFixed(w, input);
    FromLittleEndianInverse(bs);
    Parsed(FromLittleEndian(bs), rest)
  }

  lemma UintRoundTrip(n: nat, w: nat, rest: Bytes)
    requires n < Pow256(w)
    ensures DecodeUint(w, LittleEndian(n, w) + rest) == Parsed(n, rest)
    ensures w > 0 ==> (LittleEndian(n, w) + rest)[0] as nat == n % 256
  {
    LittleEndianInverse(n, w);
    FixedRoundTrip(LittleEndian(n, w), rest);
  }

  lemma UintCanonical(w: nat, input: Bytes)
    requires DecodeUint(w, input).Parsed?
    ensures input == LittleEndian(DecodeUint(w, input).value, w) + DecodeUint(w, input).rest
    ensures w > 0 ==> input[0] as nat == DecodeUint(w, input).value % 256
  {
    FromLittleEndianInverse(input[..w]);
  }

  function EncodeU64(n: u64): Bytes {
    LittleEndian(n, 8)
  }

  function DecodeU64(input: Bytes): (p: Parse<u64>) {
    var (n, rest) :- DecodeUint(8, input);
    Widths();
    Parsed(n, rest)
  }

  lemma U64RoundTrip(n: u64, rest: Bytes)
    ensures DecodeU64(EncodeU64(n) + rest) == Parsed(n, rest)
  {
    Widths();
    UintRoundTrip(n, 8, rest);
  }

  lemma U64Canonical(input: Bytes)
    requires DecodeU64(input).Parsed?
    ensures input == EncodeU64(DecodeU64(input).value) + DecodeU64(input).rest
  {
    UintCanonical(8, input);
  }

  /** `to_be_bytes` of a 256-bit integer, then a fixed array. */
  function EncodeU256(n: U256): Bytes {
    BigEndian(n, 32)
  }

  function DecodeU256(input: Bytes): (p: Parse<U256>) {
    var (bs, rest) :- DecodeFixed(32, input);
    FromBigEndianInverse(bs);
    Widths();
    Parsed(FromBigEndian(bs), rest)
  }

  lemma U256RoundTrip(n: U256, rest: Bytes)
    ensures DecodeU256(EncodeU256(n) + rest) == Parsed(n, rest)
  {
    Widths();
    BigEndianInverse(n, 32);
    FixedRoundTrip(EncodeU256(n), rest);
  }

  lemma U256Canonical(input: Bytes)
    requires DecodeU256(input).Parsed?
    ensures input == EncodeU256(DecodeU256(input).value) + DecodeU256(input).rest
  {
    FromBigEndianInverse(input[..32]);
  }

  /** An address is its 20 bytes, read as a big-endian integer. */
  function EncodeAddress(a: Address): Bytes {
    BigEndian(a, 20)
  }

  function DecodeAddress(input: Bytes): (p: Parse<Address>) {
    var (bs, rest) :- DecodeFixed(20, input);
    FromBigEndianInverse(bs);
    Widths();
    Parsed(FromBigEndian(bs), rest)
  }

  lemma AddressRoundTrip(a: Address, rest: Bytes)
    ensures DecodeAddress(EncodeAddress(a) + rest) == Parsed(a, rest)
  {
    Widths();
    BigEndianInverse(a, 20);
    FixedRoundTrip(EncodeAddress(a), rest);
  }

  lemma AddressCanonical(input: Bytes)
    requires DecodeAddress(input).Parsed?
    ensures input == EncodeAddress(DecodeAddress(input).value) + DecodeAddress(input).rest
  {
    FromBigEndianInverse(input[..20]);
  }

  // ---------- compact lengths ----------

  const TWO_32: nat := 0x1_0000_0000
  const TWO_30: nat := 0x4000_0000
  const TWO_14: nat := 0x4000

  type u32 = n: nat | n < TWO_32

  /** The two low bits of the first byte are the mode: one, two, four or five bytes. */
  function EncodeCompact(n: u32): Bytes {
    if n < 64 then [(4 * n) as byte]
    else if n < TWO_14 then LittleEndian(4 * n + 1, 2)
    else if n < TWO_30 then LittleEndian(4 * n + 2, 4)
    else [3 as byte] + LittleEndian(n, 4)
  }

  /** Each mode must carry a value that no shorter mode can. */
  function DecodeCompact(input: Bytes): (p: Parse<u32>) {
    if input == [] then NoParse
    else
      var mode := input[0] as nat % 4;
      if mode == 0 then Parsed(input[0] as nat / 4, input[1..])
      else if mode == 1 then
        var (n, rest) :- DecodeUint(2, input);
        ShortWidths();
        if n / 4 > 63 then Parsed(n / 4, rest) else NoParse
      else if mode == 2 then
        var (n, rest) :- DecodeUint(4, input);
        ShortWidths();
        if n / 4 >= TWO_14 then Parsed(n / 4, rest) else NoParse
      else if input[0] as nat / 4 == 0 then
        var (n, rest) :- DecodeUint(4, input[1..]);
        ShortWidths();
        if n >= TWO_30 then Parsed(n, rest) else NoParse
      else NoParse
  }

  /** The two low bits survive in the first byte. */
  lemma LowBits(n: nat, mode: nat)
    requires mode < 4
    ensures (4 * n + mode) % 256 % 4 == mode && (4 * n + mode) / 4 == n
  {
  }

  lemma LowBitsOf(v: nat)
    ensures v % 256 % 4 == v % 4 && v == 4 * (v / 4) + v % 4
  {
  }

  lemma CompactFiveBytes(n: u32, rest: Bytes)
    requires n >= TWO_30
    ensures DecodeCompact([3 as byte] + LittleEndian(n, 4) + rest) == Parsed(n, rest)
  {
    ShortWidths();
    UintRoundTrip(n, 4, rest);
    assert ([3 as byte] + LittleEndian(n, 4) + rest)[1..] == LittleEndian(n, 4) + rest;
  }

  lemma CompactTwoBytes(n: u32, rest: Bytes)
    requires 64 <= n < TWO_14
    ensures DecodeCompact(LittleEndian(4 * n + 1, 2) + rest) == Parsed(n, rest)
  {
    ShortWidths();
    UintRoundTrip(4 * n + 1, 2, rest);
    LowBits(n, 1);
  }

  lemma CompactFourBytes(n: u32, rest: Bytes)
    requires TWO_14 <= n < TWO_30
    ensures DecodeCompact(LittleEndian(4 * n + 2, 4) + rest) == Parsed(n, rest)
  {
    ShortWidths();
    UintRoundTrip(4 * n + 2, 4, rest);
    LowBits(n, 2);
  }

  lemma CompactRoundTrip(n: u32, rest: Bytes)
    ensures DecodeCompact(EncodeCompact(n) + rest) == Parsed(n, rest)
  {
    if n < 64 {
      assert ([(4 * n) as byte] + rest)[1..] == rest;
    } else if n < TWO_14 {
      CompactTwoBytes(n, rest);
    } else if n < TWO_30 {
      CompactFourBytes(n, rest);
    } else {
      CompactFiveBytes(n, rest);
    }
  }

  /** A value decoded with the low bits `mode` in `w` bytes has those bytes as its encoding. */
  lemma CanonicalWide(input: Bytes, w: nat, mode: nat, n: nat)
    requires w > 0 && DecodeUint(w, input).Parsed? && input[0] as nat % 4 == mode && n == DecodeUint(w, input).value / 4
    ensures input == LittleEndian(4 * n + mode, w) + DecodeUint(w, input).rest
  {
    UintCanonical(w, input);
    LowBitsOf(DecodeUint(w, input).value);
  }

  /** Only the encoding of a length decodes to it. */
  lemma CompactCanonical(input: Bytes)
    requires DecodeCompact(input).Parsed?
    ensures input == EncodeCompact(DecodeCompact(input).value) + DecodeCompact(input).rest
  {
    var mode, n := input[0] as nat % 4, DecodeCompact(input).value;
    if mode == 0 {
      assert input == [input[0]] + input[1..];
    } else if mode == 1 {
      CanonicalWide(input, 2, 1, n);
    } else if mode == 2 {
      CanonicalWide(input, 4, 2, n);
    } else {
      UintCanonical(4, input[1..]);
      assert input == [3 as byte] + input[1..];
      Lists.ConcatAssociative([3 as byte], LittleEndian(n, 4), DecodeCompact(input).rest);
    }
  }

  // ---------- vectors ----------

  /** A vector the encoder accepts: its length fits the compact form of a 32-bit integer. */
  type ByteVec = v: Bytes | |v| < TWO_32
  type U64Vec = v: seq<u64> | |v| < TWO_32

  function EncodeBytes(v: ByteVec): Bytes {
    EncodeCompact(|v|) + v
  }

  function DecodeBytes(input: Bytes): (p: Parse<ByteVec>) {
    var (n, rest) :- DecodeCompact(input);
    DecodeFixed(n, rest)
  }

  lemma BytesRoundTrip(v: ByteVec, rest: Bytes)
    ensures DecodeBytes(EncodeBytes(v) + rest) == Parsed(v, rest)
  {
    assert EncodeBytes(v) + rest == EncodeCompact(|v|) + (v + rest);
    CompactRoundTrip(|v|, v + rest);
    FixedRoundTrip(v, rest);
  }

  lemma BytesCanonical(input: Bytes)
    requires DecodeBytes(input).Parsed?
    ensures input == EncodeBytes(DecodeBytes(input).value) + DecodeBytes(input).rest
  {
    CompactCanonical(input);
  }

  function EncodeU64s(v: seq<u64>): Bytes {
    if v == [] then [] else EncodeU64(v[0]) + EncodeU64s(v[1..])
  }

  function DecodeU64s(n: nat, input: Bytes): (p: Parse<seq<u64>>)
    ensures p.Parsed? ==> |p.value| == n
  {
    if n == 0 then Parsed([], input)
    else
      var (x, rest) :- DecodeU64(input);
      var (xs, rest') :- DecodeU64s(n - 1, rest);
      Parsed([x] + xs, rest')
  }

  lemma {:induction false} U64sRoundTrip(v: seq<u64>, rest: Bytes)
    ensures DecodeU64s(|v|, EncodeU64s(v) + rest) == Parsed(v, rest)
  {
    if v == [] {
      assert [] + rest == rest;
    } else {
      U64sRoundTrip(v[1..], rest);
      assert EncodeU64s(v) + rest == EncodeU64(v[0]) + (EncodeU64s(v[1..]) + rest);
      U64RoundTrip(v[0], EncodeU64s(v[1..]) + rest);
      assert v == [v[0]] + v[1..];
    }
  }

  lemma {:induction false} U64sCanonical(n: nat, input: Bytes)
    requires DecodeU64s(n, input).Parsed?
    ensures input == EncodeU64s(DecodeU64s(n, input).value) + DecodeU64s(n, input).rest
  {
    if n > 0 {
      U64Canonical(input);
      var rest := DecodeU64(input).rest;
      U64sCanonical(n - 1, rest);
      var v := DecodeU64s(n, input).value;
      assert v[1..] == DecodeU64s(n - 1, rest).value;
    }
  }

  function EncodeU64Vec(v: U64Vec): Bytes {
    EncodeCompact(|v|) + EncodeU64s(v)
  }

  function DecodeU64Vec(input: Bytes): (p: Parse<U64Vec>) {
    var (n, rest) :- DecodeCompact(input);
    DecodeU64s(n, rest)
  }

  lemma U64VecRoundTrip(v: U64Vec, rest: Bytes)
    ensures DecodeU64Vec(EncodeU64Vec(v) + rest) == Parsed(v, rest)
  {
    assert EncodeU64Vec(v) + rest == EncodeCompact(|v|) + (EncodeU64s(v) + rest);
    CompactRoundTrip(|v|, EncodeU64s(v) + rest);
    U64sRoundTrip(v, rest);
  }

  lemma U64VecCanonical(input: Bytes)
    requires DecodeU64Vec(input).Parsed?
    ensures input == EncodeU64Vec(DecodeU64Vec(input).value) + DecodeU64Vec(input).rest
  {
    CompactCanonical(input);
    U64sCanonical(DecodeCompact(input).value, DecodeCompact(input).rest);
  }
}
