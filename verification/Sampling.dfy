/** `DasLightNode::perform_das`: sampling distinct cells, first pseudo-randomly, then by a scan. */
module Sampling {
  import opened Machine
  import opened Bits
  import opened ErasureGrids
  import opened Grid
  import opened FirstFit

  type Coord = (nat, nat)

  datatype SampleError = Inconsistent

  /** The linear congruential generator of the seed, wrapping. */
  function NextSeed(seed: usize): usize {
    (seed * 1103515245 + 12345) % TWO_64
  }

  function Seed(n: nat): usize {
    if n == 0 then 42 else NextSeed(Seed(n - 1))
  }

  function Scan(size: nat, i: nat): Coord
    requires size > 0
  {
    ((i / size) % size, i % size)
  }

  /** The cell looked at in attempt `a`, counting from 1: 999 pseudo-random ones, then a scan of the grid. */
  function Probe(size: nat, a: nat): Coord
    requires size > 0 && a > 0
  {
    if a < 1000 then (Seed(2 * a - 1) % size, Seed(2 * a) % size) else Scan(size, a - 1000)
  }

  function Probed(size: nat, n: nat): set<Coord>
    requires size > 0
  {
    if n == 0 then {} else Probed(size, n - 1) + {Probe(size, n)}
  }

  predicate OnGridCoord(size: nat, x: Coord) {
    x.0 < size && x.1 < size
  }

  // ---------- the scan reaches every cell ----------

  ghost function Scanned(size: nat, m: nat): set<Coord>
    requires size > 0
  {
    if m == 0 then {} else Scanned(size, m - 1) + {Scan(size, m - 1)}
  }

  lemma ScanPosition(size: nat, i: nat)
    requires size > 0 && i < size * size
    ensures OnGridCoord(size, Scan(size, i)) && i == Scan(size, i).0 * size + Scan(size, i).1
  {
    Quotient(i, size, size);
    SmallModulo(i / size, size);
  }

  lemma SmallModulo(n: nat, m: nat)
    requires n < m
    ensures n % m == n
  {
  }

  lemma ScanInjective(size: nat, i: nat, j: nat)
    requires size > 0 && i < j < size * size
    ensures Scan(size, i) != Scan(size, j)
  {
    ScanPosition(size, i);
    ScanPosition(size, j);
  }

  lemma {:induction false} ScannedOrigin(size: nat, m: nat, x: Coord) returns (i: nat)
    requires size > 0 && x in Scanned(size, m)
    ensures i < m && x == Scan(size, i)
  {
    if x == Scan(size, m - 1) { i := m - 1; } else { i := ScannedOrigin(size, m - 1, x); }
  }

  lemma {:induction false} ScannedCount(size: nat, m: nat)
    requires size > 0 && m <= size * size
    ensures |Scanned(size, m)| == m
  {
    if m > 0 {
      ScannedCount(size, m - 1);
      if Scan(size, m - 1) in Scanned(size, m - 1) {
        var i := ScannedOrigin(size, m - 1, Scan(size, m - 1));
        ScanInjective(size, i, m - 1);
      }
    }
  }

  lemma {:induction false} ScannedProbed(size: nat, m: nat)
    requires size > 0
    ensures Scanned(size, m) <= Probed(size, 999 + m)
  {
    if m > 0 {
      ScannedProbed(size, m - 1);
      assert Probe(size, 999 + m) == Scan(size, m - 1);
    }
  }

  /** After 999 + size * size attempts nothing is left to sample. */
  lemma AttemptsSuffice(size: nat)
    requires size > 0
    ensures |Probed(size, 999 + size * size)| >= size * size
  {
    ScannedCount(size, size * size);
    ScannedProbed(size, size * size);
    SubsetSize(Scanned(size, size * size), Probed(size, 999 + size * size));
  }

  // ---------- the loop ----------

  /** The cell would pass: not dropped, and its row verifies. */
  ghost predicate Passes(grid: ErasureGrid, codec: Option<Codec>, drops: set<Coord>, x: Coord)
    requires grid.Valid() && MadeFor(codec, grid.k)
    reads grid.data
  {
    && x !in drops && OnGridCoord(2 * grid.k, x) && codec.Some? && grid.chunkSize > 0
    && IsCodeword(codec.value, ShardsOf(grid.data[..], 2 * grid.k, grid.chunkSize, Row(x.0)), grid.k, grid.chunkSize)
  }

  function TotalCells(grid: ErasureGrid): nat {
    var size := 2 * grid.k;
    size * size
  }

  /**
   What an answer after so many attempts says: true, that the first cells probed, as many as needed,
   all pass; otherwise that the last cell probed is the first that does not pass, and is dropped
   (false) or in an inconsistent row (an error).
   */
  ghost predicate Answers(required: nat, grid: ErasureGrid, drops: set<Coord>, codec: Option<Codec>,
                          r: Result<bool, SampleError>, attempts: nat)
    requires grid.Valid() && MadeFor(codec, grid.k)
    reads grid.data
  {
    var size := 2 * grid.k;
    var needed := Min(required, TotalCells(grid));
    if needed == 0 then attempts == 0 && r == Ok(true)
    else match r
      case Ok(true) =>
        |Probed(size, attempts)| == needed && forall x :: x in Probed(size, attempts) ==> Passes(grid, codec, drops, x)
      case Ok(false) => StopsAt(size, needed, grid, drops, codec, attempts) && Probe(size, attempts) in drops
      case Err(_) => StopsAt(size, needed, grid, drops, codec, attempts) && Probe(size, attempts) !in drops
  }

  /** Attempt `attempts` is the first to look at a cell that does not pass, with cells still needed. */
  ghost predicate StopsAt(size: nat, needed: nat, grid: ErasureGrid, drops: set<Coord>, codec: Option<Codec>,
                          attempts: nat)
    requires grid.Valid() && MadeFor(codec, grid.k) && size > 0
    reads grid.data
  {
    && attempts > 0 && |Probed(size, attempts - 1)| < needed && !Passes(grid, codec, drops, Probe(size, attempts))
    && forall x :: x in Probed(size, attempts - 1) ==> Passes(grid, codec, drops, x)
  }

  /** The coordinates of one attempt. */
  method NextProbe(size: nat, attempt: nat, before: usize) returns (row: nat, col: nat, seed: usize)
    requires size > 0 && attempt > 0 && before == Seed(2 * Min(attempt - 1, 999))
    ensures (row, col) == Probe(size, attempt) && seed == Seed(2 * Min(attempt, 999))
  {
    seed := before;
    if attempt < 1000 {
      seed := NextSeed(seed);
      row := seed % size;
      assert seed == Seed(2 * attempt - 1);
      seed := NextSeed(seed);
      col := seed % size;
    } else {
      var idx := attempt - 1000;
      row, col := (idx / size) % size, idx % size;
    }
  }

  method PerformDas(required: nat, grid: ErasureGrid, drops: set<Coord>, codec: Option<Codec>)
    returns (r: Result<bool, SampleError>)
    requires grid.Valid() && MadeFor(codec, grid.k)
    ensures exists attempts: nat ::
              attempts <= 999 + TotalCells(grid) && Answers(required, grid, drops, codec, r, attempts)
  {
    var size := 2 * grid.k;
    var totalCells := TotalCells(grid);
    var needed := Min(required, totalCells);
    var sampled: set<Coord> := {};
    var seed: usize := 42;
    var successful := 0;
    var tries := 0;
    while |sampled| < needed
      invariant needed > 0 ==> sampled == Probed(size, tries)
      invariant needed == 0 ==> tries == 0 && sampled == {}
      invariant |sampled| <= needed && successful == |sampled|
      invariant seed == Seed(2 * Min(tries, 999))
      invariant tries <= 999 + totalCells
      invariant forall x :: x in sampled ==> Passes(grid, codec, drops, x)
      decreases 999 + totalCells - tries
    {
      if tries == 999 + totalCells { AttemptsSuffice(size); }
      assert tries < 999 + totalCells;
      tries := tries + 1;
      var row, col;
      row, col, seed := NextProbe(size, tries, seed);
      if (row, col) !in sampled {
        sampled := sampled + {(row, col)};
        if (row, col) in drops {
          assert Answers(required, grid, drops, codec, Ok(false), tries);
          return Ok(false);
        }
        var ok := grid.VerifyChunk(row, col, codec);
        if !ok {
          assert Answers(required, grid, drops, codec, Err(Inconsistent), tries);
          return Err(Inconsistent);
        }
        successful := successful + 1;
      }
    }
    assert Answers(required, grid, drops, codec, Ok(true), tries);
    r := Ok(successful >= needed);
  }

  // ---------- what the answer means ----------

  lemma {:induction false} GridCells(size: nat) returns (cells: set<Coord>)
    requires size > 0
    ensures |cells| == size * size && forall x: Coord :: OnGridCoord(size, x) <==> x in cells
  {
    ScannedCount(size, size * size);
    cells := Scanned(size, size * size);
    forall x: Coord | OnGridCoord(size, x) ensures x in cells {
      ScanReaches(size, x);
    }
    forall x: Coord | x in cells ensures OnGridCoord(size, x) {
      var i := ScannedOrigin(size, size * size, x);
      ScanPosition(size, i);
    }
  }

  lemma ScanReaches(size: nat, x: Coord)
    requires size > 0 && OnGridCoord(size, x)
    ensures x in Scanned(size, size * size)
  {
    var i := x.0 * size + x.1;
    CellNumber(size, x.0, x.1);
    ScanFinds(size, size * size, i);
    ScanPosition(size, i);
    CellNumberInjective(size, x.0, x.1, Scan(size, i).0, Scan(size, i).1);
  }

  lemma {:induction false} ScanFinds(size: nat, m: nat, i: nat)
    requires size > 0 && i < m
    ensures Scan(size, i) in Scanned(size, m)
  {
    if i < m - 1 { ScanFinds(size, m - 1, i); }
  }

  lemma EmptyGridLosesNothing(lost: set<Coord>)
    requires forall x :: x in lost ==> OnGridCoord(0, x)
    ensures lost == {}
  {
  }

  /** If more grid cells are dropped than sampling may leave out, no set of enough cells avoids them. */
  lemma TooManyDropped(size: nat, needed: nat, drops: set<Coord>, lost: set<Coord>, seen: set<Coord>)
    requires size > 0 && needed <= size * size
    requires lost <= drops && (forall x :: x in lost ==> OnGridCoord(size, x)) && |lost| > size * size - needed
    requires |seen| == needed && forall x :: x in seen ==> OnGridCoord(size, x)
    ensures exists x :: x in seen && x in drops
  {
    var cells := GridCells(size);
    if seen !! drops {
      assert |seen + lost| == |seen| + |lost|;
      SubsetSize(seen + lost, cells);
    }
  }

  /** On an encoded grid every chunk verifies, so a cell passes unless it is dropped. */
  lemma EncodedGridPasses(grid: ErasureGrid, codec: Codec, input: seq<Gf>, drops: set<Coord>, x: Coord)
    requires grid.Valid() && CodecFor(codec, grid.k) && Encoded(grid.data[..], grid.k, grid.chunkSize, codec, input)
    requires grid.chunkSize > 0 && OnGridCoord(2 * grid.k, x)
    ensures Passes(grid, Some(codec), drops, x) <==> x !in drops
  {
    EveryRowIsCodeword(grid.data[..], grid.k, grid.chunkSize, codec, input, x.0);
  }

  lemma {:induction false} ProbesOnGrid(size: nat, n: nat)
    requires size > 0
    ensures forall x :: x in Probed(size, n) ==> OnGridCoord(size, x)
  {
    if n > 0 { ProbesOnGrid(size, n - 1); }
  }

  /** On an encoded grid sampling never errs, and true means exactly as many distinct undropped cells as needed. */
  lemma NeverErrsOnEncodedGrid(required: nat, grid: ErasureGrid, drops: set<Coord>, codec: Codec, input: seq<Gf>,
                               r: Result<bool, SampleError>, attempts: nat)
    requires grid.Valid() && CodecFor(codec, grid.k) && Encoded(grid.data[..], grid.k, grid.chunkSize, codec, input)
    requires grid.chunkSize > 0 && Answers(required, grid, drops, Some(codec), r, attempts)
    ensures r.Ok?
    ensures r == Ok(true) && Min(required, TotalCells(grid)) > 0 ==>
              |Probed(2 * grid.k, attempts)| == Min(required, TotalCells(grid)) && Probed(2 * grid.k, attempts) !! drops
  {
    if r.Err? {
      EncodedGridPasses(grid, codec, input, drops, Probe(2 * grid.k, attempts));
    }
  }

  /** When more grid cells are dropped than sampling leaves out, the answer is never true. */
  lemma NeverTrueWhenTooManyDropped(required: nat, grid: ErasureGrid, drops: set<Coord>, codec: Option<Codec>,
                                    r: Result<bool, SampleError>, attempts: nat, lost: set<Coord>)
    requires grid.Valid() && MadeFor(codec, grid.k) && Answers(required, grid, drops, codec, r, attempts)
    requires lost <= drops && (forall x :: x in lost ==> OnGridCoord(2 * grid.k, x))
    requires |lost| > TotalCells(grid) - Min(required, TotalCells(grid))
    ensures r != Ok(true)
  {
    var size := 2 * grid.k;
    var needed := Min(required, TotalCells(grid));
    if size == 0 {
      EmptyGridLosesNothing(lost);
    } else if r == Ok(true) {
      var seen := if needed == 0 then {} else Probed(size, attempts);
      TooManyDropped(size, needed, drops, lost, seen);
    }
  }

  // ---------- which dropped cells are noticed ----------

  lemma {:induction false} ProbedGrows(size: nat, m: nat, n: nat)
    requires size > 0 && m <= n
    ensures Probed(size, m) <= Probed(size, n)
    ensures 0 < m ==> Probe(size, m) in Probed(size, n)
  {
    if m < n { ProbedGrows(size, m, n - 1); }
  }

  /** The cells probed by the time there are `needed` of them do not depend on when that is noticed. */
  lemma SameFirstProbes(size: nat, m: nat, n: nat)
    requires size > 0 && |Probed(size, m)| == |Probed(size, n)|
    ensures Probed(size, m) == Probed(size, n)
  {
    if m <= n {
      ProbedGrows(size, m, n);
      SameSizeSubset(Probed(size, m), Probed(size, n));
    } else {
      ProbedGrows(size, n, m);
      SameSizeSubset(Probed(size, n), Probed(size, m));
    }
  }

  lemma SameSizeSubset(x: set<Coord>, y: set<Coord>)
    requires x <= y && |x| == |y|
    ensures x == y
  {
    assert |y - x| == |y| - |x|;
    assert y - x == {};
  }

  /** Some attempt is the first to have looked at `needed` cells. */
  lemma {:induction false} FirstProbes(size: nat, needed: nat, limit: nat) returns (n: nat)
    requires size > 0 && needed <= |Probed(size, limit)|
    ensures n <= limit && |Probed(size, n)| == needed
  {
    if |Probed(size, limit)| == needed {
      n := limit;
    } else {
      n := FirstProbes(size, needed, limit - 1);
    }
  }

  /**
   On an encoded grid the answer is true exactly when none of the first cells probed, as many as are
   needed, is dropped. The seed is fixed, so they are always the same cells, and no other drop matters.
   */
  lemma TrueIffFirstProbesKept(required: nat, grid: ErasureGrid, drops: set<Coord>, codec: Codec, input: seq<Gf>,
                               r: Result<bool, SampleError>, attempts: nat, n: nat)
    requires grid.Valid() && CodecFor(codec, grid.k) && Encoded(grid.data[..], grid.k, grid.chunkSize, codec, input)
    requires grid.k > 0 && grid.chunkSize > 0 && Answers(required, grid, drops, Some(codec), r, attempts)
    requires |Probed(2 * grid.k, n)| == Min(required, TotalCells(grid))
    ensures r == Ok(true) <==> Probed(2 * grid.k, n) !! drops
  {
    var size, needed := 2 * grid.k, Min(required, TotalCells(grid));
    NeverErrsOnEncodedGrid(required, grid, drops, codec, input, r, attempts);
    if needed > 0 {
      if r == Ok(true) {
        SameFirstProbes(size, attempts, n);
      } else {
        if n < attempts {
          ProbedGrows(size, n, attempts - 1);
          SubsetSize(Probed(size, n), Probed(size, attempts - 1));
        }
        ProbedGrows(size, attempts, n);
      }
    }
  }

  /** The bound of `NeverTrueWhenTooManyDropped` is tight: all cells but those needed can be dropped unnoticed. */
  lemma DropsUnnoticed(required: nat, grid: ErasureGrid, codec: Codec, input: seq<Gf>) returns (drops: set<Coord>)
    requires grid.Valid() && CodecFor(codec, grid.k) && Encoded(grid.data[..], grid.k, grid.chunkSize, codec, input)
    requires grid.k > 0 && grid.chunkSize > 0
    ensures |drops| == TotalCells(grid) - Min(required, TotalCells(grid))
    ensures forall x :: x in drops ==> OnGridCoord(2 * grid.k, x)
    ensures forall r, attempts: nat :: Answers(required, grid, drops, Some(codec), r, attempts) ==> r == Ok(true)
  {
    var size, needed := 2 * grid.k, Min(required, TotalCells(grid));
    AttemptsSuffice(size);
    var n := FirstProbes(size, needed, 999 + size * size);
    var cells := GridCells(size);
    ProbesOnGrid(size, n);
    drops := cells - Probed(size, n);
    assert Probed(size, n) <= cells;
    assert |cells| == |drops| + |Probed(size, n)|;
    forall r, attempts: nat | Answers(required, grid, drops, Some(codec), r, attempts) ensures r == Ok(true) {
      TrueIffFirstProbesKept(required, grid, drops, codec, input, r, attempts, n);
    }
  }
}
