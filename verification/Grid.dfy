/** The grid object, its encoder and its checker, and the two-dimensional code theorem. */
module Grid {
  import opened Machine
  import opened Bits
  import opened Gf256
  import opened ErasureGrids

  datatype EncodeError = InvalidSize | NoEncoder

  /** What `ReedSolomon::new(k, k)` returns: a code, or nothing. */
  ghost predicate MadeFor(codec: Option<Codec>, k: nat) {
    codec.Some? ==> CodecFor(codec.value, k)
  }

  class ErasureGrid {
    const k: nat
    const chunkSize: nat
    const data: array<Gf>

    ghost predicate Valid()
      reads data
    {
      Sized(data[..], 2 * k, chunkSize)
    }

    constructor (k: nat, chunkSize: nat, data: array<Gf>)
      ensures this.k == k && this.chunkSize == chunkSize && this.data == data
    {
      this.k, this.chunkSize, this.data := k, chunkSize, data;
    }

    /** The bytes at the offset of `(row, col)`; for cells on the grid they are the cell. */
    function Chunk(row: nat, col: nat): (s: Shard)
      reads data
      requires Offset(2 * k, chunkSize, row, col) + chunkSize <= data.Length
      ensures Valid() && row < 2 * k && col < 2 * k ==> s == Cell(data[..], 2 * k, chunkSize, row, col)
    {
      var offset := Offset(2 * k, chunkSize, row, col);
      data[offset..offset + chunkSize]
    }

    /** Writing through `chunk_mut` changes that cell and no other. */
    method SetChunk(row: nat, col: nat, bytes: Shard)
      requires Valid() && row < 2 * k && col < 2 * k && |bytes| == chunkSize
      modifies data
      ensures Valid() && Cell(data[..], 2 * k, chunkSize, row, col) == bytes
      ensures forall r, c :: 0 <= r < 2 * k && 0 <= c < 2 * k && (r, c) != (row, col)
                ==> Cell(data[..], 2 * k, chunkSize, r, c) == old(Cell(data[..], 2 * k, chunkSize, r, c))
    {
      PutCell(data, 2 * k, chunkSize, row, col, bytes);
    }

    /** True exactly for a cell of the grid whose row is a codeword; `verify` refuses empty shards. */
    method VerifyChunk(row: nat, col: nat, codec: Option<Codec>) returns (ok: bool)
      requires Valid() && MadeFor(codec, k)
      ensures ok <==> row < 2 * k && col < 2 * k && codec.Some? && chunkSize > 0
                      && IsCodeword(codec.value, ShardsOf(data[..], 2 * k, chunkSize, Row(row)), k, chunkSize)
    {
      var size := 2 * k;
      if row >= size || col >= size {
        return false;
      }
      if codec.None? {
        return false;
      }
      var shards: seq<Shard> := [];
      for c := 0 to size
        invariant |shards| == c && forall i :: 0 <= i < c ==> shards[i] == Cell(data[..], size, chunkSize, row, i)
      {
        OffsetFits(size, chunkSize, row, c);
        shards := shards + [Chunk(row, c)];
      }
      assert shards == ShardsOf(data[..], size, chunkSize, Row(row));
      ok := chunkSize > 0 && IsCodeword(codec.value, shards, k, chunkSize);
    }
  }

  method Encode(input: seq<Gf>, k: nat, chunkSize: nat, codec: Option<Codec>)
    returns (r: Result<ErasureGrid, EncodeError>)
    requires MadeFor(codec, k)
    ensures r == Err(InvalidSize) <==> k == 0 || chunkSize == 0
    ensures r == Err(NoEncoder) <==> k != 0 && chunkSize != 0 && codec.None?
    ensures r.Ok? ==> fresh(r.value) && fresh(r.value.data) && r.value.Valid()
                      && r.value.k == k && r.value.chunkSize == chunkSize
                      && Encoded(r.value.data[..], k, chunkSize, codec.value, input)
  {
    if k == 0 || chunkSize == 0 {
      return Err(InvalidSize);
    }
    var size := 2 * k;
    var flat := new Gf[size * size * chunkSize](i => 0);
    FillData(flat, k, chunkSize, input);
    if codec.None? {
      return Err(NoEncoder);
    }
    ghost var filled := flat[..];
    EncodeLines(flat, k, chunkSize, codec.value, true, k);
    ghost var rows := flat[..];
    EncodeLines(flat, k, chunkSize, codec.value, false, size);
    BothPassesEncode(filled, rows, flat[..], k, chunkSize, codec.value, input);
    var grid := new ErasureGrid(k, chunkSize, flat);
    r := Ok(grid);
  }

  // ---------- the two-dimensional code ----------

  /** Byte `b` of the data quadrant, as a k x k matrix. */
  ghost function Plane(buf: seq<Gf>, k: nat, chunk: nat, b: nat): (m: seq<seq<Gf>>)
    requires Sized(buf, 2 * k, chunk) && b < chunk
    ensures |m| == k && IsMatrix(m, k)
    ensures forall i, j :: 0 <= i < k && 0 <= j < k ==> m[i][j] == Cell(buf, 2 * k, chunk, i, j)[b]
  {
    seq(k, i requires 0 <= i < k => seq(k, j requires 0 <= j < k => Cell(buf, 2 * k, chunk, i, j)[b]))
  }

  /** A parity byte of a codeword line is the dot product of a parity row with the line's data bytes. */
  lemma ParityByte(buf: seq<Gf>, k: nat, chunk: nat, codec: Codec, line: Line, p: nat, b: nat)
    requires Sized(buf, 2 * k, chunk) && CodecFor(codec, k) && OnGrid(line, 2 * k) && p < k && b < chunk
    requires IsCodeword(codec, ShardsOf(buf, 2 * k, chunk, line), k, chunk)
    ensures CellOn(buf, 2 * k, chunk, line, k + p)[b]
            == Dot(codec.parity[p], Col(ShardsOf(buf, 2 * k, chunk, line)[..k], b))
  {
    var shards := ShardsOf(buf, 2 * k, chunk, line);
    assert shards[k + p] == ParityShard(codec.parity[p], shards[..k], chunk);
  }

  /** The data bytes of a right-hand column are the row sums of the plane. */
  lemma {:induction false} RightColumn(buf: seq<Gf>, k: nat, chunk: nat, codec: Codec, p: nat, b: nat)
    requires Sized(buf, 2 * k, chunk) && CodecFor(codec, k) && p < k && b < chunk
    requires forall i :: 0 <= i < k ==> IsCodeword(codec, ShardsOf(buf, 2 * k, chunk, Row(i)), k, chunk)
    ensures Col(ShardsOf(buf, 2 * k, chunk, Column(k + p))[..k], b) == RowDots(Plane(buf, k, chunk, b), codec.parity[p])
  {
    var plane := Plane(buf, k, chunk, b);
    forall i | 0 <= i < k
      ensures Col(ShardsOf(buf, 2 * k, chunk, Column(k + p))[..k], b)[i] == RowDots(plane, codec.parity[p])[i]
    {
      ParityByte(buf, k, chunk, codec, Row(i), p, b);
      assert Col(ShardsOf(buf, 2 * k, chunk, Row(i))[..k], b) == plane[i];
    }
  }

  /** The data bytes of a bottom row are the column sums of the plane. */
  lemma BottomRow(buf: seq<Gf>, k: nat, chunk: nat, codec: Codec, q: nat, b: nat)
    requires Sized(buf, 2 * k, chunk) && CodecFor(codec, k) && q < k && b < chunk
    requires forall j :: 0 <= j < k ==> IsCodeword(codec, ShardsOf(buf, 2 * k, chunk, Column(j)), k, chunk)
    ensures Col(ShardsOf(buf, 2 * k, chunk, Row(k + q))[..k], b) == ColDots(Plane(buf, k, chunk, b), codec.parity[q], k)
  {
    var plane := Plane(buf, k, chunk, b);
    forall j | 0 <= j < k
      ensures Col(ShardsOf(buf, 2 * k, chunk, Row(k + q))[..k], b)[j] == ColDots(plane, codec.parity[q], k)[j]
    {
      ParityByte(buf, k, chunk, codec, Column(j), q, b);
      assert Col(ShardsOf(buf, 2 * k, chunk, Column(j))[..k], b) == Col(plane, j);
    }
  }

  lemma BottomByte(buf: seq<Gf>, k: nat, chunk: nat, codec: Codec, input: seq<Gf>, q: nat, p: nat, b: nat)
    requires Sized(buf, 2 * k, chunk) && CodecFor(codec, k) && Encoded(buf, k, chunk, codec, input)
    requires q < k && p < k && b < chunk
    ensures Cell(buf, 2 * k, chunk, k + q, k + p)[b]
         == Dot(codec.parity[p], Col(ShardsOf(buf, 2 * k, chunk, Row(k + q))[..k], b))
  {
    ParityByte(buf, k, chunk, codec, Column(k + p), q, b);
    RightColumn(buf, k, chunk, codec, p, b);
    BottomRow(buf, k, chunk, codec, q, b);
    SwapSums(Plane(buf, k, chunk, b), codec.parity[q], codec.parity[p]);
  }

  /**
   The two-dimensional code: every row of an encoded grid is a codeword, the bottom ones included,
   though those were only ever encoded column by column.
   */
  lemma EveryRowIsCodeword(buf: seq<Gf>, k: nat, chunk: nat, codec: Codec, input: seq<Gf>, r: nat)
    requires Sized(buf, 2 * k, chunk) && CodecFor(codec, k) && Encoded(buf, k, chunk, codec, input)
    requires r < 2 * k
    ensures IsCodeword(codec, ShardsOf(buf, 2 * k, chunk, Row(r)), k, chunk)
  {
    if r >= k {
      var q, shards := r - k, ShardsOf(buf, 2 * k, chunk, Row(r));
      forall p | 0 <= p < k ensures shards[k + p] == ParityShard(codec.parity[p], shards[..k], chunk) {
        forall b | 0 <= b < chunk ensures shards[k + p][b] == ParityShard(codec.parity[p], shards[..k], chunk)[b] {
          BottomByte(buf, k, chunk, codec, input, q, p, b);
        }
      }
    }
  }

  // ---------- the input is in the grid ----------

  /** Row, column and byte of the `i`-th byte of the row-major data quadrant. */
  function Place(k: nat, chunk: nat, i: nat): (p: (nat, nat, nat))
    requires i < k * k * chunk
    ensures p.0 < k && p.1 < k && p.2 < chunk && i == (p.0 * k + p.1) * chunk + p.2
  {
    var (cell, b) := Split(i, k * k, chunk);
    var (row, col) := Split(cell, k, k);
    (row, col, b)
  }

  ghost function QuadrantByte(buf: seq<Gf>, k: nat, chunk: nat, i: nat): Gf
    requires Sized(buf, 2 * k, chunk) && i < k * k * chunk
  {
    var (row, col, b) := Place(k, chunk, i);
    Cell(buf, 2 * k, chunk, row, col)[b]
  }

  /** The row-major data quadrant, cut to `n` bytes. */
  ghost function DataQuadrant(buf: seq<Gf>, k: nat, chunk: nat, n: nat): (s: seq<Gf>)
    requires Sized(buf, 2 * k, chunk) && n <= k * k * chunk
    ensures |s| == n
  {
    seq(n, i requires 0 <= i < n => QuadrantByte(buf, k, chunk, i))
  }

  lemma DataByte(buf: seq<Gf>, k: nat, chunk: nat, codec: Codec, input: seq<Gf>, row: nat, col: nat, b: nat)
    requires Sized(buf, 2 * k, chunk) && CodecFor(codec, k) && Encoded(buf, k, chunk, codec, input)
    requires row < k && col < k && b < chunk && (row * k + col) * chunk + b < |input|
    ensures Cell(buf, 2 * k, chunk, row, col)[b] == input[(row * k + col) * chunk + b]
  {
    assert Cell(buf, 2 * k, chunk, row, col) == DataChunk(input, chunk, row * k + col);
  }

  /** An input that fits is read back from the data quadrant, whatever parity was added. */
  lemma InputIsRecovered(buf: seq<Gf>, k: nat, chunk: nat, codec: Codec, input: seq<Gf>)
    requires Sized(buf, 2 * k, chunk) && CodecFor(codec, k) && Encoded(buf, k, chunk, codec, input)
    requires |input| <= k * k * chunk
    ensures DataQuadrant(buf, k, chunk, |input|) == input
  {
    forall i | 0 <= i < |input| ensures DataQuadrant(buf, k, chunk, |input|)[i] == input[i] {
      var (row, col, b) := Place(k, chunk, i);
      DataByte(buf, k, chunk, codec, input, row, col, b);
    }
  }
}
