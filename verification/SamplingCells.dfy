/** Which cells the sampling loop looks at: its constants decide, and they are always the same. */
module SamplingCells {
  import opened Machine
  import opened Bits
  import opened ErasureGrids
  import opened Grid
  import opened FirstFit
  import opened Sampling

  // ---------- the pseudo-random phase ----------

  /** The generator from 42, by the first two values. */
  lemma FirstSeeds()
    ensures Seed(1) == 46347652635 && Seed(2) == 14251853105267829688
  {
    assert Seed(0) == 42 && Seed(1) == NextSeed(42) && Seed(2) == NextSeed(46347652635);
  }

  lemma ModuloEven(n: nat, k: nat)
    requires k > 0
    ensures n % (2 * k) % 2 == n % 2
  {
    var q := n / (2 * k);
    assert n == 2 * k * q + n % (2 * k);
    assert 2 * k * q == 2 * (k * q);
  }

  lemma OddStep(seed: nat, next: nat)
    requires next == seed * 1103515245 + 12345
    ensures next % 2 == (seed + 1) % 2
  {
    assert next == 2 * (seed * 551757622 + 6172) + (seed + 1);
  }

  /** Multiplier and increment are odd, and the width is even: the parity of the seed alternates. */
  lemma NextParity(seed: usize)
    ensures NextSeed(seed) % 2 == (seed + 1) % 2
  {
    var next := seed * 1103515245 + 12345;
    OddStep(seed, next);
    ModuloEven(next, 0x8000_0000_0000_0000);
  }

  lemma Alternates(x: nat, n: nat)
    requires n > 0 && x % 2 == (n - 1) % 2
    ensures (x + 1) % 2 == n % 2
  {
  }

  lemma {:induction false} SeedParity(n: nat)
    ensures Seed(n) % 2 == n % 2
  {
    if n > 0 {
      SeedParity(n - 1);
      NextParity(Seed(n - 1));
      Alternates(Seed(n - 1), n);
    }
  }

  /** The grid has an even side, so each of the first 999 attempts lands on an odd row and an even column. */
  lemma {:induction false} OddRowEvenColumn(k: nat, a: nat)
    requires k > 0 && 0 < a < 1000
    ensures Probe(2 * k, a).0 % 2 == 1 && Probe(2 * k, a).1 % 2 == 0
  {
    var m := 2 * a;
    SeedParity(m - 1);
    SeedParity(m);
    TwoSeeds(k, Seed(m - 1), Seed(m), a);
  }

  lemma TwoSeeds(k: nat, s: usize, t: usize, a: nat)
    requires k > 0 && s % 2 == (2 * a - 1) % 2 && t % 2 == 2 * a % 2
    ensures s % (2 * k) % 2 == 1 && t % (2 * k) % 2 == 0
  {
    ModuloEven(s, k);
    ModuloEven(t, k);
  }

  ghost predicate OddEven(k: nat, cells: set<Coord>) {
    forall x :: x in cells ==> OnGridCoord(2 * k, x) && x.0 % 2 == 1 && x.1 % 2 == 0
  }

  lemma {:induction false} ProbedOddEven(k: nat, n: nat)
    requires k > 0 && n < 1000
    ensures OddEven(k, Probed(2 * k, n))
  {
    if n > 0 {
      ProbedOddEven(k, n - 1);
      OddRowEvenColumn(k, n);
    }
  }

  lemma HalfAndBack(x: Coord)
    requires x.0 % 2 == 1 && x.1 % 2 == 0
    ensures (2 * (x.0 / 2) + 1, 2 * (x.1 / 2)) == x
  {
  }

  lemma OneMoreHalf(k: nat, cells: set<Coord>, x: Coord, rest: set<Coord>)
    requires OddEven(k, cells) && x in cells
    requires forall y :: y in rest ==> OnGridCoord(k, y) && (2 * y.0 + 1, 2 * y.1) in cells - {x}
    ensures (x.0 / 2, x.1 / 2) !in rest && OnGridCoord(k, (x.0 / 2, x.1 / 2))
    ensures (2 * (x.0 / 2) + 1, 2 * (x.1 / 2)) == x
  {
    HalfAndBack(x);
  }

  /** Halving the coordinates maps such cells one to one into a k x k grid. */
  lemma {:induction false} Halved(k: nat, cells: set<Coord>) returns (halves: set<Coord>)
    requires OddEven(k, cells)
    ensures |halves| == |cells|
    ensures forall y :: y in halves ==> OnGridCoord(k, y) && (2 * y.0 + 1, 2 * y.1) in cells
    decreases cells
  {
    if cells == {} {
      halves := {};
    } else {
      var x :| x in cells;
      var rest := Halved(k, cells - {x});
      OneMoreHalf(k, cells, x, rest);
      halves := rest + {(x.0 / 2, x.1 / 2)};
    }
  }

  /** So the pseudo-random attempts look at no more than a quarter of the grid. */
  lemma QuarterReached(k: nat, n: nat)
    requires k > 0 && n < 1000
    ensures |Probed(2 * k, n)| <= k * k
  {
    ProbedOddEven(k, n);
    var halves := Halved(k, Probed(2 * k, n));
    var cells := GridCells(k);
    SubsetSize(halves, cells);
  }

  /** Whoever asks for more cells than that gets them from the scan, after all 999 pseudo-random attempts. */
  lemma ScanNeeded(k: nat, needed: nat, n: nat)
    requires k > 0 && needed > k * k && |Probed(2 * k, n)| >= needed
    ensures n >= 1000
  {
    if n < 1000 { QuarterReached(k, n); }
  }

  // ---------- the scan ----------

  /** Step `i` of the scan looks at the cell with the row-major number `i`. */
  lemma ScanHits(size: nat, i: nat, x: Coord)
    requires size > 0 && i < size * size && OnGridCoord(size, x)
    ensures x == Scan(size, i) <==> x.0 * size + x.1 == i
  {
    ScanPosition(size, i);
    if x.0 * size + x.1 == i { CellNumberInjective(size, x.0, x.1, Scan(size, i).0, Scan(size, i).1); }
  }

  lemma OneMoreProbed(size: nat, n: nat, i: nat, x: Coord)
    requires size > 0 && n == 999 + i
    ensures x in Probed(size, n + 1) <==> x in Probed(size, n) || x == Scan(size, i)
  {
    assert Probe(size, n + 1) == Scan(size, i);
  }

  lemma {:induction false} SeenInScan(size: nat, m: nat, n: nat, x: Coord, number: nat)
    requires size > 0 && n == 999 + m && forall i :: 0 <= i < m ==> (x == Scan(size, i) <==> number == i)
    ensures x in Probed(size, n) <==> x in Probed(size, n - m) || number < m
  {
    if m > 0 {
      SeenInScan(size, m - 1, n - 1, x, number);
      OneMoreProbed(size, n - 1, m - 1, x);
    }
  }

  /** After attempt 999 + m: what the pseudo-random attempts found, and the first `m` cells in row-major order. */
  lemma {:induction false} ProbedInScan(size: nat, m: nat, n: nat, x: Coord)
    requires size > 0 && m <= size * size && n == 999 + m && OnGridCoord(size, x)
    ensures x in Probed(size, n) <==> x in Probed(size, n - m) || x.0 * size + x.1 < m
  {
    forall i | 0 <= i < m ensures x == Scan(size, i) <==> x.0 * size + x.1 == i {
      ScanHits(size, i, x);
    }
    SeenInScan(size, m, n, x, x.0 * size + x.1);
  }

  /** At the end of the scan every cell of the grid has been looked at, and nothing else. */
  lemma {:induction false} AllProbed(size: nat, total: nat) returns (n: nat)
    requires size > 0 && total == size * size
    ensures |Probed(size, n)| == total
    ensures forall row: nat, col: nat :: (row, col) in Probed(size, n) <==> row < size && col < size
  {
    n := 999 + size * size;
    var cells := GridCells(size);
    AttemptsSuffice(size);
    ProbesOnGrid(size, n);
    assert Probed(size, n) <= cells;
    SubsetSize(Probed(size, n), cells);
    SameSizeSubset(Probed(size, n), cells);
    forall row: nat, col: nat ensures (row, col) in cells <==> row < size && col < size {
      assert OnGridCoord(size, (row, col)) <==> (row, col) in cells;
    }
  }

  lemma FourQuadrants(k: nat, required: nat)
    ensures 4 * k * k == 2 * k * (2 * k)
    ensures required >= 4 * k * k ==> Min(required, 2 * k * (2 * k)) == 2 * k * (2 * k)
  {
  }

  /** Asked for every cell of the grid, 4k^2 of them, sampling answers true exactly when none is dropped. */
  lemma {:induction false} FullSampling(required: nat, grid: ErasureGrid, drops: set<Coord>, codec: Codec,
                                        input: seq<Gf>, r: Result<bool, SampleError>, attempts: nat)
    requires grid.Valid() && CodecFor(codec, grid.k) && Encoded(grid.data[..], grid.k, grid.chunkSize, codec, input)
    requires grid.k > 0 && grid.chunkSize > 0 && required >= 4 * grid.k * grid.k
    requires Answers(required, grid, drops, Some(codec), r, attempts)
    ensures r == Ok(forall row: nat, col: nat :: row < 2 * grid.k && col < 2 * grid.k ==> (row, col) !in drops)
  {
    var size := 2 * grid.k;
    FourQuadrants(grid.k, required);
    var n := AllProbed(size, size * size);
    NeverErrsOnEncodedGrid(required, grid, drops, codec, input, r, attempts);
    TrueIffFirstProbesKept(required, grid, drops, codec, input, r, attempts, n);
    NoneDropped(size, Probed(size, n), drops);
  }

  lemma NoneDropped(size: nat, cells: set<Coord>, drops: set<Coord>)
    requires forall row: nat, col: nat :: (row, col) in cells <==> row < size && col < size
    ensures cells !! drops <==> forall row: nat, col: nat :: row < size && col < size ==> (row, col) !in drops
  {
    if x :| x in cells && x in drops { assert (x.0, x.1) in drops; }
  }

  // ---------- two small grids ----------

  /** On an encoded 4 x 4 grid, a single sample is the cell in row 3 and column 0: no other drop is noticed. */
  lemma OneSampleOfFour(grid: ErasureGrid, drops: set<Coord>, codec: Codec, input: seq<Gf>,
                        r: Result<bool, SampleError>, attempts: nat)
    requires grid.Valid() && CodecFor(codec, grid.k) && Encoded(grid.data[..], grid.k, grid.chunkSize, codec, input)
    requires grid.k == 2 && grid.chunkSize > 0 && Answers(1, grid, drops, Some(codec), r, attempts)
    ensures r == Ok((3, 0) !in drops)
  {
    FirstSeeds();
    assert Probed(4, 0) == {} && Probe(4, 1) == (3, 0);
    assert Probed(4, 1) == {(3, 0)};
    NeverErrsOnEncodedGrid(1, grid, drops, codec, input, r, attempts);
    TrueIffFirstProbesKept(1, grid, drops, codec, input, r, attempts, 1);
  }

  /** On an encoded 2 x 2 grid the pseudo-random attempts find one cell only; a second sample comes from the scan. */
  lemma {:induction false} TwoSamplesOfTwo(grid: ErasureGrid, drops: set<Coord>, codec: Codec, input: seq<Gf>,
                                           r: Result<bool, SampleError>, attempts: nat)
    requires grid.Valid() && CodecFor(codec, grid.k) && Encoded(grid.data[..], grid.k, grid.chunkSize, codec, input)
    requires grid.k == 1 && grid.chunkSize > 0 && Answers(2, grid, drops, Some(codec), r, attempts)
    ensures r == Ok((1, 0) !in drops && (0, 0) !in drops)
  {
    var n := ProbedOfTwo();
    NeverErrsOnEncodedGrid(2, grid, drops, codec, input, r, attempts);
    TrueIffFirstProbesKept(2, grid, drops, codec, input, r, attempts, n);
  }

  /** On a 2 x 2 grid all pseudo-random attempts look at one cell. */
  lemma {:induction false} RandomOfTwo(n: nat)
    requires 0 < n < 1000
    ensures Probed(2, n) == {(1, 0)}
  {
    ProbedOddEven(1, n);
    ProbedGrows(2, 1, n);
    OddRowEvenColumn(1, 1);
    forall x | x in Probed(2, n) ensures x == (1, 0) {
      OnlyOddEven(x);
    }
    OnlyOddEven(Probe(2, 1));
  }

  lemma OnlyOddEven(x: Coord)
    requires OnGridCoord(2, x) && x.0 % 2 == 1 && x.1 % 2 == 0
    ensures x == (1, 0)
  {
  }

  lemma FirstScanned(size: nat, n: nat)
    requires size > 0 && n == 1000
    ensures Probe(size, n) == (0, 0)
  {
  }

  lemma {:induction false} ProbedOfTwo() returns (n: nat)
    ensures Probed(2, n) == {(1, 0), (0, 0)}
  {
    n := 1000;
    RandomOfTwo(n - 1);
    FirstScanned(2, n);
    assert Probed(2, n) == Probed(2, n - 1) + {Probe(2, n)};
  }
}
