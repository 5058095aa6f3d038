/** `ErasureGrid` of crates/network/src/das.rs: a two-dimensional Reed-Solomon code in one flat buffer. */
module ErasureGrids {
  import opened Bits
  import opened Gf256

  type Shard = seq<Gf>

  // ---------- the flat layout ----------

  /** Where cell `(row, col)` of a `size` x `size` grid starts. */
  function Offset(size: nat, chunk: nat, row: nat, col: nat): nat {
    (row * size + col) * chunk
  }

  lemma Blocks(i: nat, j: nat, width: nat)
    requires i < j
    ensures i * width + width <= j * width
  {
    assert (i + 1) * width <= j * width;
  }

  lemma CellNumber(size: nat, row: nat, col: nat)
    requires row < size && col < size
    ensures row * size + col < size * size
  {
    Blocks(row, size, size);
  }

  lemma CellNumberInjective(size: nat, row: nat, col: nat, row': nat, col': nat)
    requires col < size && col' < size && row * size + col == row' * size + col'
    ensures row == row' && col == col'
  {
    if row < row' {
      Blocks(row, row', size);
    } else if row' < row {
      Blocks(row', row, size);
    }
  }

  lemma OffsetFits(size: nat, chunk: nat, row: nat, col: nat)
    requires row < size && col < size
    ensures Offset(size, chunk, row, col) + chunk <= size * size * chunk
  {
    CellNumber(size, row, col);
    Blocks(row * size + col, size * size, chunk);
  }

  /** The cells do not overlap. */
  lemma CellsDisjoint(size: nat, chunk: nat, row: nat, col: nat, row': nat, col': nat)
    requires col < size && col' < size && (row, col) != (row', col')
    ensures Offset(size, chunk, row, col) + chunk <= Offset(size, chunk, row', col')
         || Offset(size, chunk, row', col') + chunk <= Offset(size, chunk, row, col)
  {
    var i, j := row * size + col, row' * size + col';
    if i < j {
      Blocks(i, j, chunk);
    } else if j < i {
      Blocks(j, i, chunk);
    } else {
      CellNumberInjective(size, row, col, row', col');
    }
  }

  lemma Quotient(n: nat, count: nat, width: nat)
    requires n < count * width
    ensures width > 0 && n / width < count && n == n / width * width + n % width
  {
    assert width > 0;
    if count <= n / width { Monotone(count, n / width, width); }
  }

  lemma Monotone(i: nat, j: nat, width: nat)
    requires i <= j
    ensures i * width <= j * width
  {
  }

  /** A number below a product, as a pair of digits. */
  function Split(n: nat, count: nat, width: nat): (p: (nat, nat))
    requires n < count * width
    ensures p.0 < count && p.1 < width && n == p.0 * width + p.1
  {
    Quotient(n, count, width);
    (n / width, n % width)
  }

  lemma Cover(size: nat, chunk: nat, i: nat, cell: nat, row: nat, col: nat, b: nat)
    requires i == cell * chunk + b && cell == row * size + col
    ensures i == Offset(size, chunk, row, col) + b
  {
  }

  /** The cells cover the buffer: every byte lies in a cell, and by `CellsDisjoint` in one only. */
  lemma CellsTile(size: nat, chunk: nat, i: nat) returns (row: nat, col: nat, b: nat)
    requires i < size * size * chunk
    ensures row < size && col < size && b < chunk && i == Offset(size, chunk, row, col) + b
  {
    var p := Split(i, size * size, chunk);
    var q := Split(p.0, size, size);
    row, col, b := q.0, q.1, p.1;
    Cover(size, chunk, i, p.0, row, col, b);
  }

  ghost predicate Sized(buf: seq<Gf>, size: nat, chunk: nat) {
    |buf| == size * size * chunk
  }

  function Cell(buf: seq<Gf>, size: nat, chunk: nat, row: nat, col: nat): (s: Shard)
    requires Sized(buf, size, chunk) && row < size && col < size
    ensures |s| == chunk
  {
    OffsetFits(size, chunk, row, col);
    buf[Offset(size, chunk, row, col)..Offset(size, chunk, row, col) + chunk]
  }

  // ---------- Reed-Solomon ----------

  /** The parity rows of a (k, k) code: shard k + p is the combination of the data shards with row p. */
  datatype Codec = Codec(parity: seq<seq<Gf>>)

  ghost predicate CodecFor(codec: Codec, k: nat) {
    |codec.parity| == k && IsMatrix(codec.parity, k)
  }

  ghost predicate Shards(shards: seq<Shard>, n: nat, chunk: nat) {
    |shards| == n && IsMatrix(shards, chunk)
  }

  /** Byte by byte, the linear combination of the data shards. */
  function ParityShard(row: seq<Gf>, data: seq<Shard>, chunk: nat): (s: Shard)
    requires |row| == |data| && IsMatrix(data, chunk)
    ensures |s| == chunk && forall b :: 0 <= b < chunk ==> s[b] == Dot(row, Col(data, b))
  {
    seq(chunk, b requires 0 <= b < chunk => Dot(row, Col(data, b)))
  }

  /** `ReedSolomon::encode`: keep the k data shards, overwrite the k parity shards. */
  function EncodeShards(codec: Codec, shards: seq<Shard>, k: nat, chunk: nat): (r: seq<Shard>)
    requires CodecFor(codec, k) && Shards(shards, 2 * k, chunk)
    ensures Shards(r, 2 * k, chunk) && r[..k] == shards[..k] && IsCodeword(codec, r, k, chunk)
  {
    var data := shards[..k];
    var r := data + seq(k, p requires 0 <= p < k => ParityShard(codec.parity[p], data, chunk));
    assert r[..k] == data;
    r
  }

  /** `ReedSolomon::verify`: recompute the parity and compare. */
  predicate IsCodeword(codec: Codec, shards: seq<Shard>, k: nat, chunk: nat)
    requires CodecFor(codec, k) && Shards(shards, 2 * k, chunk)
  {
    forall p :: 0 <= p < k ==> shards[k + p] == ParityShard(codec.parity[p], shards[..k], chunk)
  }

  // ---------- lines of the grid ----------

  datatype Line = Row(n: nat) | Column(n: nat)

  predicate OnGrid(line: Line, size: nat) {
    line.n < size
  }

  function CellOn(buf: seq<Gf>, size: nat, chunk: nat, line: Line, i: nat): (s: Shard)
    requires Sized(buf, size, chunk) && OnGrid(line, size) && i < size
    ensures |s| == chunk
  {
    match line
    case Row(r) => Cell(buf, size, chunk, r, i)
    case Column(c) => Cell(buf, size, chunk, i, c)
  }

  function ShardsOf(buf: seq<Gf>, size: nat, chunk: nat, line: Line): (s: seq<Shard>)
    requires Sized(buf, size, chunk) && OnGrid(line, size)
    ensures Shards(s, size, chunk) && forall i :: 0 <= i < size ==> s[i] == CellOn(buf, size, chunk, line, i)
  {
    seq(size, i requires 0 <= i < size => CellOn(buf, size, chunk, line, i))
  }

  predicate OnLine(line: Line, row: nat, col: nat) {
    match line
    case Row(r) => row == r
    case Column(c) => col == c
  }

  /** Nothing off the cell has changed. */
  ghost predicate OnlyCell(after: seq<Gf>, before: seq<Gf>, size: nat, chunk: nat, row: nat, col: nat)
    requires Sized(after, size, chunk) && Sized(before, size, chunk)
  {
    forall r, c :: 0 <= r < size && 0 <= c < size && (r, c) != (row, col)
      ==> Cell(after, size, chunk, r, c) == Cell(before, size, chunk, r, c)
  }

  /** Copies the bytes over the head of one cell of the flat buffer. */
  method PutCell(flat: array<Gf>, size: nat, chunk: nat, row: nat, col: nat, bytes: seq<Gf>)
    requires Sized(flat[..], size, chunk) && row < size && col < size && |bytes| <= chunk
    modifies flat
    ensures Cell(flat[..], size, chunk, row, col) == bytes + old(Cell(flat[..], size, chunk, row, col))[|bytes|..]
    ensures OnlyCell(flat[..], old(flat[..]), size, chunk, row, col)
  {
    OffsetFits(size, chunk, row, col);
    var offset := Offset(size, chunk, row, col);
    forall b | 0 <= b < |bytes| {
      flat[offset + b] := bytes[b];
    }
    forall r, c | 0 <= r < size && 0 <= c < size && (r, c) != (row, col)
      ensures Cell(flat[..], size, chunk, r, c) == old(Cell(flat[..], size, chunk, r, c))
    {
      OffsetFits(size, chunk, r, c);
      CellsDisjoint(size, chunk, row, col, r, c);
    }
  }

  /** Nothing off the line has changed. */
  ghost predicate OnlyLine(after: seq<Gf>, before: seq<Gf>, size: nat, chunk: nat, line: Line)
    requires Sized(after, size, chunk) && Sized(before, size, chunk)
  {
    forall r, c :: 0 <= r < size && 0 <= c < size && !OnLine(line, r, c)
      ==> Cell(after, size, chunk, r, c) == Cell(before, size, chunk, r, c)
  }

  /** The first `n` cells of the line hold the shards, and nothing off the line has changed. */
  ghost predicate LineWritten(buf: seq<Gf>, was: seq<Gf>, size: nat, chunk: nat, line: Line, shards: seq<Shard>, n: nat)
    requires Sized(buf, size, chunk) && Sized(was, size, chunk) && OnGrid(line, size) && n <= size <= |shards|
  {
    && OnlyLine(buf, was, size, chunk, line)
    && forall i :: 0 <= i < n ==> CellOn(buf, size, chunk, line, i) == shards[i]
  }

  lemma OneMoreCell(was: seq<Gf>, before: seq<Gf>, after: seq<Gf>, size: nat, chunk: nat, line: Line,
                    shards: seq<Shard>, n: nat)
    requires Sized(was, size, chunk) && Sized(before, size, chunk) && Sized(after, size, chunk)
    requires OnGrid(line, size) && n < size <= |shards| && LineWritten(before, was, size, chunk, line, shards, n)
    requires CellOn(after, size, chunk, line, n) == shards[n]
    requires if line.Row? then OnlyCell(after, before, size, chunk, line.n, n)
            else OnlyCell(after, before, size, chunk, n, line.n)
    ensures LineWritten(after, was, size, chunk, line, shards, n + 1)
  {
    forall i | 0 <= i < n ensures CellOn(after, size, chunk, line, i) == CellOn(before, size, chunk, line, i) {
    }
  }

  /** Read one row or column into shards, encode it, and write all its shards back. */
  method EncodeLine(flat: array<Gf>, k: nat, chunk: nat, codec: Codec, line: Line)
    requires Sized(flat[..], 2 * k, chunk) && CodecFor(codec, k) && OnGrid(line, 2 * k)
    modifies flat
    ensures ShardsOf(flat[..], 2 * k, chunk, line)
            == EncodeShards(codec, ShardsOf(old(flat[..]), 2 * k, chunk, line), k, chunk)
    ensures OnlyLine(flat[..], old(flat[..]), 2 * k, chunk, line)
  {
    var size := 2 * k;
    var shards := EncodeShards(codec, ShardsOf(flat[..], size, chunk, line), k, chunk);
    for i := 0 to size
      invariant LineWritten(flat[..], old(flat[..]), size, chunk, line, shards, i)
    {
      ghost var before := flat[..];
      if line.Row? {
        PutCell(flat, size, chunk, line.n, i, shards[i]);
      } else {
        PutCell(flat, size, chunk, i, line.n, shards[i]);
      }
      OneMoreCell(old(flat[..]), before, flat[..], size, chunk, line, shards, i);
    }
    assert ShardsOf(flat[..], size, chunk, line) == shards;
  }

  // ---------- encoding ----------

  function ZeroShard(chunk: nat): Shard {
    seq(chunk, b => 0)
  }

  /** The `i`-th chunk of the input, padded with zeros. */
  function DataChunk(input: seq<Gf>, chunk: nat, i: nat): (s: Shard)
    ensures |s| == chunk
  {
    seq(chunk, b requires 0 <= b < chunk => if i * chunk + b < |input| then input[i * chunk + b] else 0)
  }

  /** A cell once the first `n` chunks are in place, row by row, in the data quadrant. */
  function FilledCell(k: nat, chunk: nat, input: seq<Gf>, n: nat, row: nat, col: nat): (s: Shard)
    ensures |s| == chunk
  {
    if row < k && col < k && row * k + col < n then DataChunk(input, chunk, row * k + col) else ZeroShard(chunk)
  }

  ghost predicate Filled(buf: seq<Gf>, k: nat, chunk: nat, input: seq<Gf>, n: nat)
    requires Sized(buf, 2 * k, chunk)
  {
    forall r, c :: 0 <= r < 2 * k && 0 <= c < 2 * k ==>
      Cell(buf, 2 * k, chunk, r, c) == FilledCell(k, chunk, input, n, r, c)
  }

  lemma FillOne(k: nat, chunk: nat, input: seq<Gf>, i: nat, row: nat, col: nat, r: nat, c: nat)
    requires row < k && col < k && i == row * k + col
    ensures FilledCell(k, chunk, input, i + 1, r, c) ==
            if (r, c) == (row, col) then DataChunk(input, chunk, i) else FilledCell(k, chunk, input, i, r, c)
  {
    if r < k && c < k && r * k + c == i { CellNumberInjective(k, r, c, row, col); }
  }

  /** Once the input is used up, the remaining chunks are zero. */
  lemma FillRest(k: nat, chunk: nat, input: seq<Gf>, i: nat, row: nat, col: nat)
    requires i <= k * k && (i == k * k || i * chunk >= |input|)
    ensures FilledCell(k, chunk, input, i, row, col) == FilledCell(k, chunk, input, k * k, row, col)
  {
    if row < k && col < k && i <= row * k + col {
      CellNumber(k, row, col);
      Monotone(i, row * k + col, chunk);
    }
  }

  lemma {:induction false} NothingFilled(buf: seq<Gf>, k: nat, chunk: nat, input: seq<Gf>)
    requires Sized(buf, 2 * k, chunk) && forall i :: 0 <= i < |buf| ==> buf[i] == 0
    ensures Filled(buf, k, chunk, input, 0)
  {
    forall r, c | 0 <= r < 2 * k && 0 <= c < 2 * k ensures Cell(buf, 2 * k, chunk, r, c) == ZeroShard(chunk) {
      OffsetFits(2 * k, chunk, r, c);
    }
  }

  lemma OneMoreChunk(before: seq<Gf>, after: seq<Gf>, k: nat, chunk: nat, input: seq<Gf>, i: nat, row: nat, col: nat)
    requires Sized(before, 2 * k, chunk) && Sized(after, 2 * k, chunk)
    requires row < k && col < k && i == row * k + col && Filled(before, k, chunk, input, i)
    requires Cell(after, 2 * k, chunk, row, col) == DataChunk(input, chunk, i)
    requires OnlyCell(after, before, 2 * k, chunk, row, col)
    ensures Filled(after, k, chunk, input, i + 1)
  {
    forall r, c | 0 <= r < 2 * k && 0 <= c < 2 * k
      ensures Cell(after, 2 * k, chunk, r, c) == FilledCell(k, chunk, input, i + 1, r, c)
    {
      FillOne(k, chunk, input, i, row, col, r, c);
    }
  }

  lemma AllFilled(buf: seq<Gf>, k: nat, chunk: nat, input: seq<Gf>, i: nat)
    requires Sized(buf, 2 * k, chunk) && Filled(buf, k, chunk, input, i)
    requires i <= k * k && (i == k * k || i * chunk >= |input|)
    ensures Filled(buf, k, chunk, input, k * k)
  {
    forall r, c | 0 <= r < 2 * k && 0 <= c < 2 * k
      ensures Cell(buf, 2 * k, chunk, r, c) == FilledCell(k, chunk, input, k * k, r, c)
    {
      FillRest(k, chunk, input, i, r, c);
    }
  }

  /** What is left of the input for chunk `i`, completed by the zeros already there. */
  lemma PieceAndPadding(input: seq<Gf>, chunk: nat, i: nat)
    requires i * chunk < |input|
    ensures var end := if i * chunk + chunk <= |input| then i * chunk + chunk else |input|;
            input[i * chunk..end] + ZeroShard(chunk)[end - i * chunk..] == DataChunk(input, chunk, i)
  {
  }

  method FillData(flat: array<Gf>, k: nat, chunk: nat, input: seq<Gf>)
    requires Sized(flat[..], 2 * k, chunk) && k > 0 && chunk > 0
    requires forall i :: 0 <= i < flat.Length ==> flat[i] == 0
    modifies flat
    ensures Filled(flat[..], k, chunk, input, k * k)
  {
    NothingFilled(flat[..], k, chunk, input);
    var i := 0;
    while i * chunk < |input| && i < k * k
      invariant i <= k * k && Filled(flat[..], k, chunk, input, i)
    {
      ghost var before := flat[..];
      var (row, col) := Split(i, k, k);
      PieceAndPadding(input, chunk, i);
      assert Cell(before, 2 * k, chunk, row, col) == FilledCell(k, chunk, input, i, row, col) == ZeroShard(chunk);
      PutCell(flat, 2 * k, chunk, row, col, input[i * chunk..if i * chunk + chunk <= |input| then i * chunk + chunk
              else |input|]);
      OneMoreChunk(before, flat[..], k, chunk, input, i, row, col);
      i := i + 1;
    }
    AllFilled(flat[..], k, chunk, input, i);
  }

  /** Every line of this kind up to `n` has been encoded from `before`; the others are as before. */
  ghost predicate LinesEncoded(buf: seq<Gf>, before: seq<Gf>, k: nat, chunk: nat, codec: Codec, rows: bool, n: nat)
    requires Sized(buf, 2 * k, chunk) && Sized(before, 2 * k, chunk) && CodecFor(codec, k) && n <= 2 * k
  {
    && (forall l :: 0 <= l < n ==> ShardsOf(buf, 2 * k, chunk, LineOf(rows, l))
                                   == EncodeShards(codec, ShardsOf(before, 2 * k, chunk, LineOf(rows, l)), k, chunk))
    && (forall r, c :: 0 <= r < 2 * k && 0 <= c < 2 * k && (if rows then r else c) >= n
          ==> Cell(buf, 2 * k, chunk, r, c) == Cell(before, 2 * k, chunk, r, c))
  }

  function LineOf(rows: bool, n: nat): Line {
    if rows then Row(n) else Column(n)
  }

  lemma SameCellsSameShards(x: seq<Gf>, y: seq<Gf>, size: nat, chunk: nat, line: Line)
    requires Sized(x, size, chunk) && Sized(y, size, chunk) && OnGrid(line, size)
    requires forall i :: 0 <= i < size ==> CellOn(x, size, chunk, line, i) == CellOn(y, size, chunk, line, i)
    ensures ShardsOf(x, size, chunk, line) == ShardsOf(y, size, chunk, line)
  {
  }

  lemma OtherLineKept(after: seq<Gf>, before: seq<Gf>, size: nat, chunk: nat, rows: bool, l: nat, m: nat)
    requires Sized(after, size, chunk) && Sized(before, size, chunk) && l < size && m < size && l != m
    requires OnlyLine(after, before, size, chunk, LineOf(rows, l))
    ensures ShardsOf(after, size, chunk, LineOf(rows, m)) == ShardsOf(before, size, chunk, LineOf(rows, m))
  {
    SameCellsSameShards(after, before, size, chunk, LineOf(rows, m));
  }

  lemma OneMoreLine(was: seq<Gf>, before: seq<Gf>, after: seq<Gf>, k: nat, chunk: nat, codec: Codec, rows: bool, l: nat)
    requires Sized(was, 2 * k, chunk) && Sized(before, 2 * k, chunk) && Sized(after, 2 * k, chunk)
    requires CodecFor(codec, k) && l < 2 * k && LinesEncoded(before, was, k, chunk, codec, rows, l)
    requires ShardsOf(after, 2 * k, chunk, LineOf(rows, l))
          == EncodeShards(codec, ShardsOf(before, 2 * k, chunk, LineOf(rows, l)), k, chunk)
    requires OnlyLine(after, before, 2 * k, chunk, LineOf(rows, l))
    ensures LinesEncoded(after, was, k, chunk, codec, rows, l + 1)
  {
    SameCellsSameShards(before, was, 2 * k, chunk, LineOf(rows, l));
    forall m | 0 <= m < l
      ensures ShardsOf(after, 2 * k, chunk, LineOf(rows, m)) == ShardsOf(before, 2 * k, chunk, LineOf(rows, m))
    {
      OtherLineKept(after, before, 2 * k, chunk, rows, l, m);
    }
  }

  method EncodeLines(flat: array<Gf>, k: nat, chunk: nat, codec: Codec, rows: bool, n: nat)
    requires Sized(flat[..], 2 * k, chunk) && CodecFor(codec, k) && n <= 2 * k
    modifies flat
    ensures LinesEncoded(flat[..], old(flat[..]), k, chunk, codec, rows, n)
  {
    for l := 0 to n
      invariant LinesEncoded(flat[..], old(flat[..]), k, chunk, codec, rows, l)
    {
      ghost var before := flat[..];
      EncodeLine(flat, k, chunk, codec, LineOf(rows, l));
      OneMoreLine(old(flat[..]), before, flat[..], k, chunk, codec, rows, l);
    }
  }

  /** What `encode` leaves: the input in the data quadrant, the top rows and all columns codewords. */
  ghost predicate Encoded(buf: seq<Gf>, k: nat, chunk: nat, codec: Codec, input: seq<Gf>)
    requires Sized(buf, 2 * k, chunk) && CodecFor(codec, k)
  {
    && (forall r, c :: 0 <= r < k && 0 <= c < k ==> Cell(buf, 2 * k, chunk, r, c) == DataChunk(input, chunk, r * k + c))
    && (forall r :: 0 <= r < k ==> IsCodeword(codec, ShardsOf(buf, 2 * k, chunk, Row(r)), k, chunk))
    && (forall c :: 0 <= c < 2 * k ==> IsCodeword(codec, ShardsOf(buf, 2 * k, chunk, Column(c)), k, chunk))
  }

  lemma TopRowsKept(rows: seq<Gf>, final: seq<Gf>, k: nat, chunk: nat, codec: Codec, r: nat)
    requires Sized(rows, 2 * k, chunk) && Sized(final, 2 * k, chunk) && CodecFor(codec, k) && r < k
    requires LinesEncoded(final, rows, k, chunk, codec, false, 2 * k)
    ensures ShardsOf(final, 2 * k, chunk, Row(r)) == ShardsOf(rows, 2 * k, chunk, Row(r))
  {
    var x, y := ShardsOf(final, 2 * k, chunk, Row(r)), ShardsOf(rows, 2 * k, chunk, Row(r));
    forall c | 0 <= c < 2 * k ensures x[c] == y[c] {
      assert ShardsOf(final, 2 * k, chunk, LineOf(false, c))
              == EncodeShards(codec, ShardsOf(rows, 2 * k, chunk, LineOf(false, c)), k, chunk);
      TopUnchanged(final, rows, k, chunk, codec, Column(c), r);
    }
  }

  lemma DataKept(data: seq<Gf>, rows: seq<Gf>, k: nat, chunk: nat, codec: Codec, input: seq<Gf>, r: nat, c: nat)
    requires Sized(data, 2 * k, chunk) && Sized(rows, 2 * k, chunk) && CodecFor(codec, k) && r < k && c < k
    requires Filled(data, k, chunk, input, k * k) && LinesEncoded(rows, data, k, chunk, codec, true, k)
    ensures Cell(rows, 2 * k, chunk, r, c) == DataChunk(input, chunk, r * k + c)
  {
    assert ShardsOf(rows, 2 * k, chunk, LineOf(true, r))
            == EncodeShards(codec, ShardsOf(data, 2 * k, chunk, LineOf(true, r)), k, chunk);
    TopUnchanged(rows, data, k, chunk, codec, Row(r), c);
    CellNumber(k, r, c);
    assert Cell(data, 2 * k, chunk, r, c) == FilledCell(k, chunk, input, k * k, r, c);
  }

  lemma {:induction false} BothPassesEncode(data: seq<Gf>, rows: seq<Gf>, final: seq<Gf>, k: nat, chunk: nat,
                                            codec: Codec, input: seq<Gf>)
    requires Sized(data, 2 * k, chunk) && Sized(rows, 2 * k, chunk) && Sized(final, 2 * k, chunk) && CodecFor(codec, k)
    requires Filled(data, k, chunk, input, k * k)
    requires LinesEncoded(rows, data, k, chunk, codec, true, k)
    requires LinesEncoded(final, rows, k, chunk, codec, false, 2 * k)
    ensures Encoded(final, k, chunk, codec, input)
  {
    forall r, c | 0 <= r < k && 0 <= c < k
      ensures Cell(final, 2 * k, chunk, r, c) == DataChunk(input, chunk, r * k + c)
    {
      TopRowsKept(rows, final, k, chunk, codec, r);
      assert ShardsOf(final, 2 * k, chunk, Row(r))[c] == ShardsOf(rows, 2 * k, chunk, Row(r))[c];
      DataKept(data, rows, k, chunk, codec, input, r, c);
    }
    forall r | 0 <= r < k ensures IsCodeword(codec, ShardsOf(final, 2 * k, chunk, Row(r)), k, chunk) {
      TopRowsKept(rows, final, k, chunk, codec, r);
      assert ShardsOf(rows, 2 * k, chunk, LineOf(true, r))
              == EncodeShards(codec, ShardsOf(data, 2 * k, chunk, LineOf(true, r)), k, chunk);
    }
    forall c | 0 <= c < 2 * k ensures IsCodeword(codec, ShardsOf(final, 2 * k, chunk, Column(c)), k, chunk) {
      assert ShardsOf(final, 2 * k, chunk, LineOf(false, c))
              == EncodeShards(codec, ShardsOf(rows, 2 * k, chunk, LineOf(false, c)), k, chunk);
    }
  }

  /** Encoding a line never changes its data shards. */
  lemma TopUnchanged(after: seq<Gf>, before: seq<Gf>, k: nat, chunk: nat, codec: Codec, line: Line, i: nat)
    requires Sized(after, 2 * k, chunk) && Sized(before, 2 * k, chunk) && CodecFor(codec, k)
    requires OnGrid(line, 2 * k) && i < k
    requires ShardsOf(after, 2 * k, chunk, line) == EncodeShards(codec, ShardsOf(before, 2 * k, chunk, line), k, chunk)
    ensures CellOn(after, 2 * k, chunk, line, i) == CellOn(before, 2 * k, chunk, line, i)
  {
    var x, y := ShardsOf(after, 2 * k, chunk, line), ShardsOf(before, 2 * k, chunk, line);
    assert x[..k] == y[..k];
    assert x[i] == x[..k][i] == y[..k][i] == y[i];
  }
}
