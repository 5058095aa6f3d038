/**
 The grid byte by byte: where the input lies, what the parity is, and which wrong byte a check of its
 row notices.
 */
module GridBytes {
  import opened Bits
  import opened Gf256
  import opened Gf256Field
  import opened ErasureGrids
  import opened Grid

  // ---------- the buffer ----------

  /** The place of byte `b` of cell `(row, col)` in the buffer. */
  lemma CellByte(buf: seq<Gf>, size: nat, chunk: nat, row: nat, col: nat, b: nat)
    requires Sized(buf, size, chunk) && row < size && col < size && b < chunk
    ensures (row * size + col) * chunk + b < |buf|
    ensures Cell(buf, size, chunk, row, col)[b] == buf[(row * size + col) * chunk + b]
  {
    OffsetFits(size, chunk, row, col);
  }

  /** The input in the buffer: row-major in the top left quadrant, zeros after its end. */
  lemma DataInBuffer(buf: seq<Gf>, k: nat, chunk: nat, codec: Codec, input: seq<Gf>, row: nat, col: nat, b: nat,
                     at: nat, i: nat)
    requires Sized(buf, 2 * k, chunk) && CodecFor(codec, k) && Encoded(buf, k, chunk, codec, input)
    requires row < k && col < k && b < chunk
    requires at == (row * (2 * k) + col) * chunk + b && i == (row * k + col) * chunk + b
    ensures at < |buf| && buf[at] == if i < |input| then input[i] else 0
  {
    CellByte(buf, 2 * k, chunk, row, col, b);
    assert Cell(buf, 2 * k, chunk, row, col) == DataChunk(input, chunk, row * k + col);
  }

  // ---------- coefficients 1 and 0 ----------

  ghost predicate UnitAt(row: seq<Gf>, j: nat) {
    j < |row| && forall i :: 0 <= i < |row| ==> row[i] == if i == j then 1 else 0
  }

  lemma ZeroTimes(b: Gf)
    ensures Mul(0, b) == 0
  {
    ProductZeroIff(0, b);
  }

  lemma {:induction false} DotNothing(u: seq<Gf>, v: seq<Gf>)
    requires |u| == |v| && forall i :: 0 <= i < |u| ==> u[i] == 0
    ensures Dot(u, v) == 0
  {
    if u != [] {
      ZeroTimes(v[0]);
      DotNothing(u[1..], v[1..]);
      AddZero(0);
    }
  }

  lemma {:induction false} DotUnit(u: seq<Gf>, v: seq<Gf>, j: nat)
    requires |u| == |v| && UnitAt(u, j)
    ensures Dot(u, v) == v[j]
  {
    if j == 0 {
      UnitLeft(v[0]);
      DotNothing(u[1..], v[1..]);
      AddZero(v[0]);
    } else {
      ZeroTimes(v[0]);
      DotUnit(u[1..], v[1..], j - 1);
      AddZero(v[j]);
    }
  }

  /** A parity row with the single coefficient 1 repeats a data shard. */
  lemma UnitParity(codec: Codec, shards: seq<Shard>, k: nat, chunk: nat, p: nat, j: nat)
    requires CodecFor(codec, k) && Shards(shards, 2 * k, chunk) && IsCodeword(codec, shards, k, chunk)
    requires p < k && j < k && UnitAt(codec.parity[p], j)
    ensures shards[k + p] == shards[j]
  {
    forall b | 0 <= b < chunk ensures shards[k + p][b] == shards[j][b] {
      DotUnit(codec.parity[p], Col(shards[..k], b), j);
    }
  }

  /** So every row and every column of an encoded grid repeats cell `j` in cell `k + p`. */
  lemma RepeatedCells(buf: seq<Gf>, k: nat, chunk: nat, codec: Codec, input: seq<Gf>, p: nat, j: nat, x: nat)
    requires Sized(buf, 2 * k, chunk) && CodecFor(codec, k) && Encoded(buf, k, chunk, codec, input)
    requires p < k && j < k && UnitAt(codec.parity[p], j) && x < 2 * k
    ensures Cell(buf, 2 * k, chunk, x, k + p) == Cell(buf, 2 * k, chunk, x, j)
    ensures Cell(buf, 2 * k, chunk, k + p, x) == Cell(buf, 2 * k, chunk, j, x)
  {
    EveryRowIsCodeword(buf, k, chunk, codec, input, x);
    UnitParity(codec, ShardsOf(buf, 2 * k, chunk, Row(x)), k, chunk, p, j);
    UnitParity(codec, ShardsOf(buf, 2 * k, chunk, Column(x)), k, chunk, p, j);
  }

  lemma FourCells(buf: seq<Gf>, chunk: nat, codec: Codec, input: seq<Gf>)
    requires CodecFor(codec, 1) && UnitAt(codec.parity[0], 0) && Sized(buf, 2 * 1, chunk)
    requires Encoded(buf, 1, chunk, codec, input)
    ensures forall r, c :: 0 <= r < 2 && 0 <= c < 2 ==> Cell(buf, 2 * 1, chunk, r, c) == DataChunk(input, chunk, 0)
  {
    RepeatedCells(buf, 1, chunk, codec, input, 0, 0, 0);
    RepeatedCells(buf, 1, chunk, codec, input, 0, 0, 1);
    assert Cell(buf, 2 * 1, chunk, 0, 0) == DataChunk(input, chunk, 0 * 1 + 0);
  }

  lemma FirstChunk(input: seq<Gf>, chunk: nat, b: nat)
    requires b < chunk
    ensures DataChunk(input, chunk, 0)[b] == if b < |input| then input[b] else 0
  {
  }

  /** Under the (1, 1) code with coefficient 1 all four cells hold the input, cut or padded to one chunk. */
  lemma RepetitionCode(buf: seq<Gf>, chunk: nat, codec: Codec, input: seq<Gf>, row: nat, col: nat, b: nat, at: nat)
    requires codec.parity == [[1]] && Sized(buf, 2 * 1, chunk) && Encoded(buf, 1, chunk, codec, input)
    requires row < 2 && col < 2 && b < chunk && at == (row * 2 + col) * chunk + b
    ensures at < |buf| && buf[at] == if b < |input| then input[b] else 0
  {
    FourCells(buf, chunk, codec, input);
    CellByte(buf, 2, chunk, row, col, b);
    FirstChunk(input, chunk, b);
  }

  // ---------- a wrong byte ----------

  /** What changing entry `j` adds to a dot product. */
  lemma {:induction false} DotChange(u: seq<Gf>, v: seq<Gf>, w: seq<Gf>, j: nat)
    requires |u| == |v| == |w| && j < |u| && forall i :: 0 <= i < |u| && i != j ==> v[i] == w[i]
    ensures Add(Dot(u, v), Dot(u, w)) == Mul(u[j], Add(v[j], w[j]))
  {
    var x, y := Mul(u[0], v[0]), Mul(u[0], w[0]);
    AddExchanges(x, Dot(u[1..], v[1..]), y, Dot(u[1..], w[1..]));
    if j == 0 {
      assert v[1..] == w[1..];
      AddSelf(Dot(u[1..], v[1..]));
      MulDistributes(u[0], v[0], w[0]);
      AddZero(Add(x, y));
    } else {
      DotChange(u[1..], v[1..], w[1..], j - 1);
      AddSelf(x);
      AddZero(Mul(u[j], Add(v[j], w[j])));
    }
  }

  lemma AddSelf(a: Gf)
    ensures Add(a, a) == 0
  {
  }

  lemma AddCancels(a: Gf, b: Gf)
    ensures Add(a, b) == 0 <==> a == b
  {
  }

  /** The dot product changes exactly when the coefficient of the changed entry is not zero. */
  lemma DotChangesIff(u: seq<Gf>, v: seq<Gf>, w: seq<Gf>, j: nat)
    requires |u| == |v| == |w| && j < |u| && v[j] != w[j] && forall i :: 0 <= i < |u| && i != j ==> v[i] == w[i]
    ensures Dot(u, v) != Dot(u, w) <==> u[j] != 0
  {
    DotChange(u, v, w, j);
    AddCancels(Dot(u, v), Dot(u, w));
    AddCancels(v[j], w[j]);
    ProductZeroIff(u[j], Add(v[j], w[j]));
  }

  /** `x` and `y` differ in byte `b` of shard `j`, and nowhere else. */
  ghost predicate OneByteOff(x: seq<Shard>, y: seq<Shard>, n: nat, chunk: nat, j: nat, b: nat) {
    && Shards(x, n, chunk) && Shards(y, n, chunk) && j < n && b < chunk && x[j][b] != y[j][b]
    && forall i, c :: 0 <= i < n && 0 <= c < chunk && (i, c) != (j, b) ==> x[i][c] == y[i][c]
  }

  /** The coefficients of data shard `j`, one for each parity shard, are all zero. */
  ghost predicate Unprotected(codec: Codec, k: nat, j: nat)
    requires CodecFor(codec, k)
  {
    j < k && forall p :: 0 <= p < k ==> codec.parity[p][j] == 0
  }

  lemma ParityUnmoved(codec: Codec, x: seq<Shard>, y: seq<Shard>, k: nat, chunk: nat, j: nat, b: nat, p: nat)
    requires CodecFor(codec, k) && OneByteOff(x, y, 2 * k, chunk, j, b) && p < k && IsCodeword(codec, x, k, chunk)
    requires j < k ==> codec.parity[p][j] == 0
    ensures ParityShard(codec.parity[p], y[..k], chunk) == x[k + p]
  {
    forall c | 0 <= c < chunk ensures Dot(codec.parity[p], Col(y[..k], c)) == Dot(codec.parity[p], Col(x[..k], c)) {
      if j < k && c == b {
        DotChangesIff(codec.parity[p], Col(x[..k], c), Col(y[..k], c), j);
      } else {
        assert Col(y[..k], c) == Col(x[..k], c);
      }
    }
  }

  lemma ParityMoves(codec: Codec, x: seq<Shard>, y: seq<Shard>, k: nat, chunk: nat, j: nat, b: nat, p: nat)
    requires CodecFor(codec, k) && OneByteOff(x, y, 2 * k, chunk, j, b) && p < k && IsCodeword(codec, x, k, chunk)
    requires j < k && codec.parity[p][j] != 0
    ensures ParityShard(codec.parity[p], y[..k], chunk) != y[k + p]
  {
    DotChangesIff(codec.parity[p], Col(x[..k], b), Col(y[..k], b), j);
    assert y[k + p][b] == x[k + p][b] == Dot(codec.parity[p], Col(x[..k], b));
  }

  lemma SameShard(x: seq<Shard>, y: seq<Shard>, n: nat, chunk: nat, j: nat, b: nat, i: nat)
    requires OneByteOff(x, y, n, chunk, j, b) && i < n && i != j
    ensures x[i] == y[i]
  {
  }

  /** One wrong byte in a codeword is noticed, unless it is a data byte to which no parity shard gives weight. */
  lemma {:induction false} WrongByteInLine(codec: Codec, x: seq<Shard>, y: seq<Shard>, k: nat, chunk: nat, j: nat,
                                           b: nat)
    requires CodecFor(codec, k) && OneByteOff(x, y, 2 * k, chunk, j, b) && IsCodeword(codec, x, k, chunk)
    ensures IsCodeword(codec, y, k, chunk) <==> Unprotected(codec, k, j)
  {
    if j >= k {
      ParityUnmoved(codec, x, y, k, chunk, j, b, j - k);
      assert y[k + (j - k)] != ParityShard(codec.parity[j - k], y[..k], chunk);
    } else if Unprotected(codec, k, j) {
      forall p | 0 <= p < k ensures y[k + p] == ParityShard(codec.parity[p], y[..k], chunk) {
        ParityUnmoved(codec, x, y, k, chunk, j, b, p);
        SameShard(x, y, 2 * k, chunk, j, b, k + p);
      }
    } else {
      var p :| 0 <= p < k && codec.parity[p][j] != 0;
      ParityMoves(codec, x, y, k, chunk, j, b, p);
    }
  }

  lemma OtherPlace(size: nat, chunk: nat, row: nat, col: nat, b: nat, row': nat, col': nat, b': nat)
    requires col < size && col' < size && b < chunk && b' < chunk && (row, col, b) != (row', col', b')
    ensures (row * size + col) * chunk + b != (row' * size + col') * chunk + b'
  {
    if (row, col) != (row', col') { CellsDisjoint(size, chunk, row, col, row', col'); }
  }

  lemma {:induction false} OtherBytesKept(before: seq<Gf>, after: seq<Gf>, size: nat, chunk: nat, row: nat, col: nat,
                                          b: nat, row': nat, col': nat, b': nat, at: nat)
    requires Sized(before, size, chunk) && row < size && col < size && b < chunk
    requires row' < size && col' < size && b' < chunk && (row, col, b) != (row', col', b')
    requires at == (row * size + col) * chunk + b < |before| == |after|
    requires forall i :: 0 <= i < |before| && i != at ==> after[i] == before[i]
    ensures Cell(after, size, chunk, row', col')[b'] == Cell(before, size, chunk, row', col')[b']
  {
    CellByte(before, size, chunk, row', col', b');
    CellByte(after, size, chunk, row', col', b');
    OtherPlace(size, chunk, row, col, b, row', col', b');
  }

  /**
   What checking a row of an intact grid says after one byte of the buffer has changed: the row of that byte
   is refused, unless the byte is unprotected data; every other row is as it was.
   */
  lemma {:induction false} WrongByteInGrid(before: seq<Gf>, after: seq<Gf>, k: nat, chunk: nat, codec: Codec,
                                           row: nat, col: nat, b: nat, at: nat)
    requires Sized(before, 2 * k, chunk) && CodecFor(codec, k) && row < 2 * k && col < 2 * k && b < chunk
    requires at == (row * (2 * k) + col) * chunk + b < |before| == |after| && after[at] != before[at]
    requires forall i :: 0 <= i < |before| && i != at ==> after[i] == before[i]
    requires IsCodeword(codec, ShardsOf(before, 2 * k, chunk, Row(row)), k, chunk)
    ensures IsCodeword(codec, ShardsOf(after, 2 * k, chunk, Row(row)), k, chunk) <==> Unprotected(codec, k, col)
    ensures forall r :: 0 <= r < 2 * k && r != row ==>
              ShardsOf(after, 2 * k, chunk, Row(r)) == ShardsOf(before, 2 * k, chunk, Row(r))
  {
    var size := 2 * k;
    CellByte(before, size, chunk, row, col, b);
    CellByte(after, size, chunk, row, col, b);
    forall r, c, d | 0 <= r < size && 0 <= c < size && 0 <= d < chunk && (r, c, d) != (row, col, b)
      ensures Cell(after, size, chunk, r, c)[d] == Cell(before, size, chunk, r, c)[d]
    {
      OtherBytesKept(before, after, size, chunk, row, col, b, r, c, d, at);
    }
    forall r | 0 <= r < size && r != row
      ensures ShardsOf(after, size, chunk, Row(r)) == ShardsOf(before, size, chunk, Row(r))
    {
      forall c | 0 <= c < size ensures Cell(after, size, chunk, r, c) == Cell(before, size, chunk, r, c) {
      }
      SameCellsSameShards(after, before, size, chunk, Row(r));
    }
    WrongByteInLine(codec, ShardsOf(before, size, chunk, Row(row)), ShardsOf(after, size, chunk, Row(row)), k, chunk,
                    col, b);
  }
}
