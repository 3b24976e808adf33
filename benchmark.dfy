/**
 * The memory benchmark: the theoretical original footprint of a grid size
 * (every piece a 2048 x 2048 RGBA image), the footprint of its optimized
 * output read back from optimization_metadata.json and the saved files, the
 * per-grid classification, the run's counters and its summary. The
 * directories are given as already-read values.
 */
module Benchmark {
  import opened Common

  const MB: nat := 1024 * 1024
  const BYTES_PER_ORIGINAL_PIECE: nat := 2048 * 2048 * 4
  const DEFAULT_GRID_SIZES: seq<string> := ["8x8", "12x12", "15x15"]

  /** The integer nearest to y, ties going to the even one. */
  function RoundHalfEven(y: real): (k: int)
    ensures -0.5 <= k as real - y <= 0.5
    ensures y >= 0.0 ==> k >= 0
    ensures (k as real - y == 0.5 || y - k as real == 0.5) ==> k % 2 == 0
  {
    var n := y.Floor;
    var frac := y - n as real;
    if frac < 0.5 then n else if frac > 0.5 then n + 1 else if n % 2 == 0 then n else n + 1
  }

  /**
   * Python's round(x, 1) on the exact value of x: the nearest multiple of
   * 0.1, ties going to the even multiple.
   */
  function Round1(x: real): (r: real)
    ensures r * 10.0 == RoundHalfEven(x * 10.0) as real
    ensures -0.05 <= r - x <= 0.05
    ensures x >= 0.0 ==> r >= 0.0
  {
    var k := RoundHalfEven(x * 10.0);
    assert (k as real / 10.0) * 10.0 == k as real;
    k as real / 10.0
  }

  /** What the benchmark reads for one grid size. */
  datatype UsageError = PiecesDirNotFound | MetadataNotFound | MetadataUnreadable

  /** calculate_original_memory_usage's dictionary, without the rounded gigabyte figure. */
  datatype OriginalUsage = OriginalUsage(piecesCount: nat, bytesPerPiece: nat, totalBytes: nat, totalMb: real)

  /**
   * calculate_original_memory_usage. `pieces` is the number of PNG files in
   * the grid's pieces directory, None when that directory does not exist.
   */
  function CalculateOriginalMemoryUsage(pieces: Option<nat>): (u: Result<OriginalUsage, UsageError>)
    ensures u.Err? <==> pieces.None?
    ensures u.Err? ==> u.error == PiecesDirNotFound
  {
    match pieces
    case None => Err(PiecesDirNotFound)
    case Some(count) =>
      var totalBytes := count * BYTES_PER_ORIGINAL_PIECE;
      Ok(OriginalUsage(count, BYTES_PER_ORIGINAL_PIECE, totalBytes, Round1(totalBytes as real / MB as real)))
  }

  /**
   * The original footprint is 16 MiB per piece file, to the byte and to the
   * rounded megabyte, and it is zero exactly when the directory is empty.
   */
  lemma OriginalUsageFacts(count: nat)
    ensures var u := CalculateOriginalMemoryUsage(Some(count)).value;
            u.piecesCount == count && u.bytesPerPiece == 16777216 &&
            u.totalBytes == 16777216 * count && u.totalMb == 16.0 * count as real &&
            (u.totalMb == 0.0 <==> count == 0)
  {
    var x := (count * BYTES_PER_ORIGINAL_PIECE) as real / MB as real;
    assert x == 16.0 * count as real;
    assert (x * 10.0).Floor == 160 * count;
  }

  /**
   * optimization_metadata.json as the benchmark finds it: the number of
   * entries of its "pieces" object (0 when it has none) and the statistics
   * entries it reads, None where the entry is absent.
   */
  datatype MetadataFile =
    | MetadataAbsent
    | MetadataCorrupt
    | MetadataPresent(pieceCount: nat, memoryReductionPercent: Option<real>,
                      originalTotalBytes: Option<int>, optimizedTotalBytes: Option<int>)

  /** dict.get(key, default) on an entry that may be absent. */
  function Get<T>(entry: Option<T>, default: T): (v: T)
    ensures entry.Some? ==> v == entry.value
    ensures entry.None? ==> v == default
  {
    if entry.Some? then entry.value else default
  }

  /** A grid size's optimized directory: its metadata file and the sizes of the PNG files under pieces/. */
  datatype OptimizedDir = OptimizedDir(metadata: MetadataFile, fileSizes: seq<nat>)

  /** calculate_optimized_memory_usage's dictionary, without the gigabyte and kilobyte figures. */
  datatype OptimizedUsage = OptimizedUsage(piecesCount: nat, actualTotalBytes: nat, actualTotalMb: real,
                                           theoreticalReductionPercent: real,
                                           theoreticalOriginalBytes: int, theoreticalOptimizedBytes: int,
                                           avgPieceSizeBytes: int, minPieceSize: nat, maxPieceSize: nat)

  /** avg_piece_size_bytes: the total spread over the recorded pieces, 0 when there are none. */
  function Average(total: nat, count: nat): (a: real)
    ensures count == 0 ==> a == 0.0
    ensures count > 0 ==> a * count as real == total as real
  {
    if count > 0 then total as real / count as real else 0.0
  }

  function Sum(s: seq<nat>): nat
    decreases |s|
  {
    if s == [] then 0 else Sum(s[..|s| - 1]) + s[|s| - 1]
  }

  /** Python's min over a list, 0 for an empty one. */
  function SeqMin(s: seq<nat>): (m: nat)
    ensures forall i :: 0 <= i < |s| ==> m <= s[i]
    ensures s != [] ==> exists i :: 0 <= i < |s| && m == s[i]
    ensures s == [] ==> m == 0
    decreases |s|
  {
    if s == [] then 0
    else if |s| == 1 then s[0]
    else
      var m := SeqMin(s[..|s| - 1]);
      if s[|s| - 1] < m then s[|s| - 1] else m
  }

  /** Python's max over a list, 0 for an empty one. */
  function SeqMax(s: seq<nat>): (m: nat)
    ensures forall i :: 0 <= i < |s| ==> s[i] <= m
    ensures s != [] ==> exists i :: 0 <= i < |s| && m == s[i]
    ensures s == [] ==> m == 0
    decreases |s|
  {
    if s == [] then 0
    else if |s| == 1 then s[0]
    else
      var m := SeqMax(s[..|s| - 1]);
      if s[|s| - 1] > m then s[|s| - 1] else m
  }

  /** No file is larger than the total of all of them. */
  lemma {:induction false} SumBounds(s: seq<nat>)
    ensures forall i :: 0 <= i < |s| ==> s[i] <= Sum(s)
    ensures SeqMax(s) <= Sum(s)
    decreases |s|
  {
    if s != [] {
      var init := s[..|s| - 1];
      SumBounds(init);
      forall i | 0 <= i < |s|
        ensures s[i] <= Sum(s)
      {
        if i < |init| {
          assert s[i] == init[i];
        }
      }
    }
  }

  /** calculate_optimized_memory_usage as a function of what it reads. */
  function OptimizedUsageSpec(dir: OptimizedDir): Result<OptimizedUsage, UsageError> {
    match dir.metadata
    case MetadataAbsent => Err(MetadataNotFound)
    case MetadataCorrupt => Err(MetadataUnreadable)
    case MetadataPresent(count, percent, originalBytes, optimizedBytes) =>
      var total := Sum(dir.fileSizes);
      Ok(OptimizedUsage(count, total, Round1(total as real / MB as real), Round1(Get(percent, 0.0)),
                        Get(originalBytes, 0), Get(optimizedBytes, 0), RoundHalfEven(Average(total, count)),
                        SeqMin(dir.fileSizes), SeqMax(dir.fileSizes)))
  }

  /**
   * calculate_optimized_memory_usage: sums the saved files' sizes in one
   * loop, keeping the list of sizes for its minimum and maximum.
   */
  method CalculateOptimizedMemoryUsage(dir: OptimizedDir) returns (u: Result<OptimizedUsage, UsageError>)
    ensures u == OptimizedUsageSpec(dir)
  {
    if dir.metadata.MetadataAbsent? {
      return Err(MetadataNotFound);
    }
    if dir.metadata.MetadataCorrupt? {
      return Err(MetadataUnreadable);
    }
    var actualTotalBytes := 0;
    var pieceSizes: seq<nat> := [];
    for i := 0 to |dir.fileSizes|
      invariant pieceSizes == dir.fileSizes[..i]
      invariant actualTotalBytes == Sum(pieceSizes)
    {
      assert dir.fileSizes[..i + 1][..i] == dir.fileSizes[..i];
      var size := dir.fileSizes[i];
      actualTotalBytes := actualTotalBytes + size;
      pieceSizes := pieceSizes + [size];
    }
    assert dir.fileSizes[..|dir.fileSizes|] == dir.fileSizes;
    var count := dir.metadata.pieceCount;
    var avg := if count > 0 then actualTotalBytes as real / count as real else 0.0;
    assert avg == Average(actualTotalBytes, count);
    var stats := dir.metadata;
    u := Ok(OptimizedUsage(count, actualTotalBytes, Round1(actualTotalBytes as real / MB as real),
                           Round1(Get(stats.memoryReductionPercent, 0.0)), Get(stats.originalTotalBytes, 0),
                           Get(stats.optimizedTotalBytes, 0), RoundHalfEven(avg),
                           SeqMin(pieceSizes), SeqMax(pieceSizes)));
  }

  /**
   * What calculate_optimized_memory_usage reports: an error exactly when the
   * metadata is missing or unreadable; otherwise the metadata's piece count,
   * the total of the file sizes, the smallest and largest among them, the
   * recorded statistics (0 where absent, the percentage to one decimal) and
   * the average file size per recorded piece to the nearest byte.
   */
  lemma OptimizedUsageFacts(dir: OptimizedDir)
    ensures OptimizedUsageSpec(dir).Err? <==> !dir.metadata.MetadataPresent?
    ensures OptimizedUsageSpec(dir).Ok? ==>
              var u := OptimizedUsageSpec(dir).value;
              var m := dir.metadata;
              (m.originalTotalBytes.None? ==> u.theoreticalOriginalBytes == 0) &&
              (m.originalTotalBytes.Some? ==> u.theoreticalOriginalBytes == m.originalTotalBytes.value) &&
              (m.optimizedTotalBytes.None? ==> u.theoreticalOptimizedBytes == 0) &&
              (m.optimizedTotalBytes.Some? ==> u.theoreticalOptimizedBytes == m.optimizedTotalBytes.value) &&
              (m.memoryReductionPercent.None? ==> u.theoreticalReductionPercent == 0.0) &&
              (m.memoryReductionPercent.Some? ==>
                 -0.05 <= u.theoreticalReductionPercent - m.memoryReductionPercent.value <= 0.05) &&
              (m.pieceCount == 0 ==> u.avgPieceSizeBytes == 0) &&
              -0.5 <= u.avgPieceSizeBytes as real - Average(Sum(dir.fileSizes), m.pieceCount) <= 0.5
    ensures OptimizedUsageSpec(dir).Ok? ==>
              OptimizedUsageSpec(dir).value.piecesCount == dir.metadata.pieceCount &&
              OptimizedUsageSpec(dir).value.actualTotalBytes == Sum(dir.fileSizes) &&
              forall i :: 0 <= i < |dir.fileSizes| ==>
                OptimizedUsageSpec(dir).value.minPieceSize <= dir.fileSizes[i] <=
                OptimizedUsageSpec(dir).value.maxPieceSize <= OptimizedUsageSpec(dir).value.actualTotalBytes
  {
    SumBounds(dir.fileSizes);
  }

  /** The rounded megabyte figure of a byte count is 0.0 exactly for fewer than 52429 bytes. */
  lemma RoundedMbZeroIff(bytes: nat)
    ensures Round1(bytes as real / MB as real) == 0.0 <==> bytes <= 52428
  {
    var x := bytes as real / MB as real;
    assert x * MB as real == bytes as real;
    if bytes <= 52428 {
      assert x * 10.0 < 0.5;
      assert (x * 10.0).Floor == 0;
    } else {
      assert x * 10.0 > 0.5;
      assert Round1(x) >= x - 0.05;
    }
  }

  /** The per-grid analysis. */
  datatype Analysis =
    | OptimizedAnalysis(memorySavedMb: real, reductionPercent: real, compressionRatio: real)
    | NotOptimized(potentialSavingsMb: real)
    | Unavailable

  /** One grid size's entry of the report. */
  datatype GridResult = GridResult(original: Result<OriginalUsage, UsageError>,
                                   optimized: Result<OptimizedUsage, UsageError>, analysis: Analysis)

  /**
   * The exception that ends run_benchmark: a division by a zero megabyte
   * figure, in one grid size's analysis or in the summary. BenchmarkOutcome
   * shows that the summary's division never fails.
   */
  datatype BenchError = ZeroDivision(gridSize: string) | SummaryZeroDivision

  /** The comparison of the two sides of one grid size, or the division that fails. */
  function Analyze(grid: string, original: Result<OriginalUsage, UsageError>,
                   optimized: Result<OptimizedUsage, UsageError>): Result<Analysis, BenchError>
  {
    if original.Ok? && optimized.Ok? then
      var totalMb := original.value.totalMb;
      var actualMb := optimized.value.actualTotalMb;
      if totalMb == 0.0 || actualMb == 0.0 then Err(ZeroDivision(grid))
      else
        var reductionMb := totalMb - actualMb;
        Ok(OptimizedAnalysis(reductionMb, (reductionMb / totalMb) * 100.0, totalMb / actualMb))
    else if original.Ok? then Ok(NotOptimized(original.value.totalMb * 0.7))
    else Ok(Unavailable)
  }

  /**
   * The classification: "optimized" exactly when neither side reported an
   * error, "not_optimized" exactly when only the optimized side did, and
   * "unavailable" exactly when the original side did; only the first can
   * raise, and it does exactly when a megabyte figure it divides by is zero.
   */
  lemma AnalysisClassification(grid: string, original: Result<OriginalUsage, UsageError>,
                               optimized: Result<OptimizedUsage, UsageError>)
    ensures Analyze(grid, original, optimized).Err? <==>
              original.Ok? && optimized.Ok? && (original.value.totalMb == 0.0 || optimized.value.actualTotalMb == 0.0)
    ensures Analyze(grid, original, optimized).Ok? ==>
              (Analyze(grid, original, optimized).value.OptimizedAnalysis? <==> original.Ok? && optimized.Ok?) &&
              (Analyze(grid, original, optimized).value.NotOptimized? <==> original.Ok? && optimized.Err?) &&
              (Analyze(grid, original, optimized).value.Unavailable? <==> original.Err?)
    ensures Analyze(grid, original, optimized).Ok? && original.Ok? && optimized.Ok? ==>
              var a := Analyze(grid, original, optimized).value;
              a.memorySavedMb == original.value.totalMb - optimized.value.actualTotalMb &&
              a.compressionRatio * optimized.value.actualTotalMb == original.value.totalMb &&
              a.reductionPercent * original.value.totalMb == a.memorySavedMb * 100.0
  {
  }

  /** Both sides of one grid size as they lie on disk. */
  datatype GridDisk = GridDisk(pieces: Option<nat>, optimized: OptimizedDir)

  /** A grid size with nothing on disk has neither a pieces directory nor metadata. */
  function DiskFor(disk: map<string, GridDisk>, grid: string): GridDisk {
    if grid in disk then disk[grid] else GridDisk(None, OptimizedDir(MetadataAbsent, []))
  }

  /** The variables of run_benchmark's loop. */
  datatype RunState = RunState(gridResults: map<string, GridResult>, totalOriginalMb: real,
                               totalOptimizedMb: real, optimizedGrids: nat)

  /**
   * The loop variables after recording the analysis `a` of one grid size: an
   * optimized grid size adds to both megabyte totals and to the count, a not
   * optimized one only to the original total.
   */
  function Record(st: RunState, grid: string, original: Result<OriginalUsage, UsageError>,
                  optimized: Result<OptimizedUsage, UsageError>, a: Analysis): RunState
    requires a.OptimizedAnalysis? ==> original.Ok? && optimized.Ok?
    requires a.NotOptimized? ==> original.Ok?
  {
    var results := st.gridResults[grid := GridResult(original, optimized, a)];
    if a.OptimizedAnalysis? then
      RunState(results, st.totalOriginalMb + original.value.totalMb,
               st.totalOptimizedMb + optimized.value.actualTotalMb, st.optimizedGrids + 1)
    else if a.NotOptimized? then
      RunState(results, st.totalOriginalMb + original.value.totalMb, st.totalOptimizedMb, st.optimizedGrids)
    else
      RunState(results, st.totalOriginalMb, st.totalOptimizedMb, st.optimizedGrids)
  }

  /** The loop's variables after recording one grid size, field by field. */
  lemma RecordIs(st: RunState, grid: string, original: Result<OriginalUsage, UsageError>,
                 optimized: Result<OptimizedUsage, UsageError>, a: Analysis, st': RunState)
    requires a.OptimizedAnalysis? ==> original.Ok? && optimized.Ok?
    requires a.NotOptimized? ==> original.Ok?
    requires st'.gridResults == st.gridResults[grid := GridResult(original, optimized, a)]
    requires a.OptimizedAnalysis? ==>
               st'.totalOriginalMb == st.totalOriginalMb + original.value.totalMb &&
               st'.totalOptimizedMb == st.totalOptimizedMb + optimized.value.actualTotalMb &&
               st'.optimizedGrids == st.optimizedGrids + 1
    requires a.NotOptimized? ==>
               st'.totalOriginalMb == st.totalOriginalMb + original.value.totalMb &&
               st'.totalOptimizedMb == st.totalOptimizedMb && st'.optimizedGrids == st.optimizedGrids
    requires a.Unavailable? ==>
               st'.totalOriginalMb == st.totalOriginalMb &&
               st'.totalOptimizedMb == st.totalOptimizedMb && st'.optimizedGrids == st.optimizedGrids
    ensures st' == Record(st, grid, original, optimized, a)
  {
  }

  /** One iteration of run_benchmark's loop. */
  function Step(st: RunState, grid: string, disk: map<string, GridDisk>): Result<RunState, BenchError> {
    var original := CalculateOriginalMemoryUsage(DiskFor(disk, grid).pieces);
    var optimized := OptimizedUsageSpec(DiskFor(disk, grid).optimized);
    match Analyze(grid, original, optimized)
    case Err(e) => Err(e)
    case Ok(a) => Ok(Record(st, grid, original, optimized, a))
  }

  /** The loop's state after the grid sizes `grids`, or the exception that ended it. */
  function RunLoop(grids: seq<string>, disk: map<string, GridDisk>): Result<RunState, BenchError>
    decreases |grids|
  {
    if grids == [] then Ok(RunState(map[], 0.0, 0.0, 0))
    else
      match RunLoop(grids[..|grids| - 1], disk)
      case Err(e) => Err(e)
      case Ok(st) => Step(st, grids[|grids| - 1], disk)
  }

  datatype OptimizationStatus = Partial | Complete

  /** The report's summary, absent when no grid size was optimized. */
  datatype Summary =
    | NoSummary
    | Summary(totalGridsAnalyzed: nat, optimizedGrids: nat, totalOriginalMemoryMb: real,
              totalOptimizedMemoryMb: real, totalMemorySavedMb: real, overallReductionPercent: real,
              overallCompressionRatio: real, optimizationStatus: OptimizationStatus)

  datatype BenchmarkReport = BenchmarkReport(gridSizes: map<string, GridResult>, summary: Summary)

  /** The summary statistics after the loop, or the division that fails. */
  function Summarize(st: RunState, gridCount: nat): Result<Summary, BenchError> {
    if st.optimizedGrids == 0 then Ok(NoSummary)
    else if st.totalOriginalMb == 0.0 || st.totalOptimizedMb == 0.0 then Err(SummaryZeroDivision)
    else
      var saved := st.totalOriginalMb - st.totalOptimizedMb;
      Ok(Summary(gridCount, st.optimizedGrids, st.totalOriginalMb, st.totalOptimizedMb, saved,
                 (saved / st.totalOriginalMb) * 100.0, st.totalOriginalMb / st.totalOptimizedMb,
                 if st.optimizedGrids < gridCount then Partial else Complete))
  }

  /** The grid sizes run_benchmark analyzes: the given ones, or 8x8, 12x12 and 15x15. */
  function RequestedGrids(gridSizes: Option<seq<string>>): seq<string> {
    if gridSizes.None? then DEFAULT_GRID_SIZES else gridSizes.value
  }

  /** run_benchmark as a function of the grid sizes asked for and what is on disk. */
  function BenchmarkSpec(gridSizes: Option<seq<string>>, disk: map<string, GridDisk>): Result<BenchmarkReport, BenchError> {
    var grids := RequestedGrids(gridSizes);
    match RunLoop(grids, disk)
    case Err(e) => Err(e)
    case Ok(st) =>
      match Summarize(st, |grids|)
      case Err(e) => Err(e)
      case Ok(summary) => Ok(BenchmarkReport(st.gridResults, summary))
  }

  /**
   * run_benchmark: analyzes each grid size in turn, keeping the two
   * megabyte totals and the count of optimized grid sizes, then summarizes.
   */
  method RunBenchmark(gridSizes: Option<seq<string>>, disk: map<string, GridDisk>)
    returns (r: Result<BenchmarkReport, BenchError>)
    ensures r == BenchmarkSpec(gridSizes, disk)
  {
    var grids := RequestedGrids(gridSizes);
    var results: map<string, GridResult> := map[];
    var totalOriginalMb := 0.0;
    var totalOptimizedMb := 0.0;
    var optimizedGrids := 0;
    for i := 0 to |grids|
      invariant RunLoop(grids[..i], disk) == Ok(RunState(results, totalOriginalMb, totalOptimizedMb, optimizedGrids))
    {
      var grid := grids[i];
      var original := CalculateOriginalMemoryUsage(DiskFor(disk, grid).pieces);
      var optimized := CalculateOptimizedMemoryUsage(DiskFor(disk, grid).optimized);
      var analysis := Analyze(grid, original, optimized);
      RunLoopAdvance(grids, i, disk, RunState(results, totalOriginalMb, totalOptimizedMb, optimizedGrids));
      if analysis.Err? {
        return Err(analysis.error);
      }
      var a := analysis.value;
      ghost var st0 := RunState(results, totalOriginalMb, totalOptimizedMb, optimizedGrids);
      results := results[grid := GridResult(original, optimized, a)];
      if a.OptimizedAnalysis? {
        totalOriginalMb := totalOriginalMb + original.value.totalMb;
        totalOptimizedMb := totalOptimizedMb + optimized.value.actualTotalMb;
        optimizedGrids := optimizedGrids + 1;
      } else if a.NotOptimized? {
        totalOriginalMb := totalOriginalMb + original.value.totalMb;
      }
      RecordIs(st0, grid, original, optimized, a, RunState(results, totalOriginalMb, totalOptimizedMb, optimizedGrids));
    }
    assert grids[..|grids|] == grids;
    var st := RunState(results, totalOriginalMb, totalOptimizedMb, optimizedGrids);
    var summary := Summarize(st, |grids|);
    if summary.Err? {
      return Err(summary.error);
    }
    r := Ok(BenchmarkReport(results, summary.value));
  }

  /**
   * One iteration of run_benchmark's loop, spelled out the way the loop body
   * updates its variables: a raising analysis ends the whole loop with that
   * error, otherwise the state after grid i + 1 is the updated one.
   */
  lemma RunLoopAdvance(grids: seq<string>, i: nat, disk: map<string, GridDisk>, st: RunState)
    requires i < |grids| && RunLoop(grids[..i], disk) == Ok(st)
    ensures Analyze(grids[i], CalculateOriginalMemoryUsage(DiskFor(disk, grids[i]).pieces),
                    OptimizedUsageSpec(DiskFor(disk, grids[i]).optimized)).Err? ==>
              RunLoop(grids, disk) == Err(Analyze(grids[i], CalculateOriginalMemoryUsage(DiskFor(disk, grids[i]).pieces),
                                                  OptimizedUsageSpec(DiskFor(disk, grids[i]).optimized)).error)
    ensures Analyze(grids[i], CalculateOriginalMemoryUsage(DiskFor(disk, grids[i]).pieces),
                    OptimizedUsageSpec(DiskFor(disk, grids[i]).optimized)).Ok? ==>
              RunLoop(grids[..i + 1], disk) ==
                Ok(Record(st, grids[i], CalculateOriginalMemoryUsage(DiskFor(disk, grids[i]).pieces),
                          OptimizedUsageSpec(DiskFor(disk, grids[i]).optimized),
                          Analyze(grids[i], CalculateOriginalMemoryUsage(DiskFor(disk, grids[i]).pieces),
                                  OptimizedUsageSpec(DiskFor(disk, grids[i]).optimized)).value))
  {
    RunLoopStep(grids, i, disk);
    if RunLoop(grids[..i + 1], disk).Err? {
      RunLoopErrorPersists(grids, i + 1, disk);
    }
  }

  lemma RunLoopStep(grids: seq<string>, i: nat, disk: map<string, GridDisk>)
    requires i < |grids|
    ensures RunLoop(grids[..i], disk).Err? ==> RunLoop(grids[..i + 1], disk) == RunLoop(grids[..i], disk)
    ensures RunLoop(grids[..i], disk).Ok? ==>
              RunLoop(grids[..i + 1], disk) == Step(RunLoop(grids[..i], disk).value, grids[i], disk)
  {
    assert grids[..i + 1][..i] == grids[..i];
  }

  /** Once a grid size has raised, the loop has raised. */
  lemma {:induction false} RunLoopErrorPersists(grids: seq<string>, k: nat, disk: map<string, GridDisk>)
    requires k <= |grids| && RunLoop(grids[..k], disk).Err?
    ensures RunLoop(grids, disk) == RunLoop(grids[..k], disk)
    decreases |grids| - k
  {
    if k < |grids| {
      assert grids[..k + 1][..k] == grids[..k];
      RunLoopErrorPersists(grids, k + 1, disk);
    } else {
      assert grids[..k] == grids;
    }
  }

  /** A grid size whose two sides can both be read: it is classified "optimized" unless it raises. */
  predicate IsOptimizedGrid(disk: map<string, GridDisk>, grid: string) {
    DiskFor(disk, grid).pieces.Some? && DiskFor(disk, grid).optimized.metadata.MetadataPresent?
  }

  /**
   * A grid size whose analysis divides by zero: both sides can be read and
   * either its pieces directory is empty or its saved files come to fewer
   * than 52429 bytes, so that their megabyte figure rounds to 0.0.
   */
  predicate Raises(disk: map<string, GridDisk>, grid: string) {
    IsOptimizedGrid(disk, grid) &&
    (DiskFor(disk, grid).pieces.value == 0 || Sum(DiskFor(disk, grid).optimized.fileSizes) <= 52428)
  }

  /** The analysis of a grid size raises exactly under the condition above. */
  lemma AnalyzeRaisesIff(disk: map<string, GridDisk>, grid: string)
    ensures Raises(disk, grid) <==>
              Analyze(grid, CalculateOriginalMemoryUsage(DiskFor(disk, grid).pieces),
                      OptimizedUsageSpec(DiskFor(disk, grid).optimized)).Err?
  {
    var d := DiskFor(disk, grid);
    AnalysisClassification(grid, CalculateOriginalMemoryUsage(d.pieces), OptimizedUsageSpec(d.optimized));
    if d.pieces.Some? {
      OriginalUsageFacts(d.pieces.value);
    }
    RoundedMbZeroIff(Sum(d.optimized.fileSizes));
  }

  /** The actual_total_mb of a grid size whose two sides can both be read, as its optimized side reports it. */
  function ActualMb(disk: map<string, GridDisk>, grid: string): real
    requires IsOptimizedGrid(disk, grid)
  {
    OptimizedUsageSpec(DiskFor(disk, grid).optimized).value.actualTotalMb
  }

  /** The actual_total_mb figures summed over the grid sizes in `grids` whose two sides can both be read. */
  function OptimizedMb(grids: seq<string>, disk: map<string, GridDisk>): real
    decreases |grids|
  {
    if grids == [] then 0.0
    else
      var g := grids[|grids| - 1];
      OptimizedMb(grids[..|grids| - 1], disk) + (if IsOptimizedGrid(disk, g) then ActualMb(disk, g) else 0.0)
  }

  /** The number of original piece files over the grid sizes whose pieces directory exists. */
  function OriginalPieces(grids: seq<string>, disk: map<string, GridDisk>): nat
    decreases |grids|
  {
    if grids == [] then 0
    else
      var p := DiskFor(disk, grids[|grids| - 1]).pieces;
      OriginalPieces(grids[..|grids| - 1], disk) + (if p.Some? then p.value else 0)
  }

  /** What one iteration of the loop does to the counters. */
  lemma StepFacts(st: RunState, grid: string, disk: map<string, GridDisk>)
    ensures Step(st, grid, disk).Err? <==> Raises(disk, grid)
    ensures Step(st, grid, disk).Ok? ==>
              var st' := Step(st, grid, disk).value;
              var p := DiskFor(disk, grid).pieces;
              st'.optimizedGrids == st.optimizedGrids + (if IsOptimizedGrid(disk, grid) then 1 else 0) &&
              st'.totalOriginalMb == st.totalOriginalMb + (if p.Some? then 16.0 * p.value as real else 0.0) &&
              (IsOptimizedGrid(disk, grid) ==>
                 st'.totalOptimizedMb == st.totalOptimizedMb + ActualMb(disk, grid) &&
                 st'.totalOptimizedMb > st.totalOptimizedMb && p.value > 0) &&
              (!IsOptimizedGrid(disk, grid) ==> st'.totalOptimizedMb == st.totalOptimizedMb) &&
              st'.gridResults.Keys == st.gridResults.Keys + {grid} &&
              (forall g :: g in st.gridResults && g != grid ==> st'.gridResults[g] == st.gridResults[g])
  {
    var d := DiskFor(disk, grid);
    var original := CalculateOriginalMemoryUsage(d.pieces);
    var optimized := OptimizedUsageSpec(d.optimized);
    AnalyzeRaisesIff(disk, grid);
    AnalysisClassification(grid, original, optimized);
    if d.pieces.Some? {
      OriginalUsageFacts(d.pieces.value);
    }
    if optimized.Ok? {
      assert optimized.value.actualTotalMb >= 0.0;
    }
  }

  lemma RunLoopPrefix(grids: seq<string>, disk: map<string, GridDisk>)
    requires grids != []
    ensures RunLoop(grids[..|grids| - 1], disk).Err? ==> RunLoop(grids, disk) == RunLoop(grids[..|grids| - 1], disk)
    ensures RunLoop(grids[..|grids| - 1], disk).Ok? ==>
              RunLoop(grids, disk) == Step(RunLoop(grids[..|grids| - 1], disk).value, grids[|grids| - 1], disk)
  {
  }

  /** The run raises exactly when one of its grid sizes does. */
  lemma {:induction false} RunLoopRaisesIff(grids: seq<string>, disk: map<string, GridDisk>)
    ensures RunLoop(grids, disk).Err? <==> exists i :: 0 <= i < |grids| && Raises(disk, grids[i])
    ensures RunLoop(grids, disk).Err? ==> RunLoop(grids, disk).error.ZeroDivision?
    decreases |grids|
  {
    if grids != [] {
      var n := |grids| - 1;
      var init := grids[..n];
      RunLoopRaisesIff(init, disk);
      RunLoopPrefix(grids, disk);
      if RunLoop(init, disk).Ok? {
        StepFacts(RunLoop(init, disk).value, grids[n], disk);
      }
      if exists i :: 0 <= i < |init| && Raises(disk, init[i]) {
        var i :| 0 <= i < |init| && Raises(disk, init[i]);
        assert grids[i] == init[i];
      }
      if exists i :: 0 <= i < |grids| && Raises(disk, grids[i]) {
        var i :| 0 <= i < |grids| && Raises(disk, grids[i]);
        if i < n {
          assert init[i] == grids[i];
        }
      }
    }
  }

  /** The number of grid sizes in `grids` whose two sides can both be read. */
  function OptimizedCount(grids: seq<string>, disk: map<string, GridDisk>): nat
    decreases |grids|
  {
    if grids == [] then 0
    else OptimizedCount(grids[..|grids| - 1], disk) + (if IsOptimizedGrid(disk, grids[|grids| - 1]) then 1 else 0)
  }

  /** The count reaches |grids| exactly when every grid size counts, and stays 0 exactly when none does. */
  lemma {:induction false} OptimizedCountIff(grids: seq<string>, disk: map<string, GridDisk>)
    ensures OptimizedCount(grids, disk) <= |grids|
    ensures OptimizedCount(grids, disk) == |grids| <==> forall i :: 0 <= i < |grids| ==> IsOptimizedGrid(disk, grids[i])
    ensures OptimizedCount(grids, disk) == 0 <==> forall i :: 0 <= i < |grids| ==> !IsOptimizedGrid(disk, grids[i])
    decreases |grids|
  {
    if grids != [] {
      var n := |grids| - 1;
      var init := grids[..n];
      OptimizedCountIff(init, disk);
      assert forall i :: 0 <= i < n ==> init[i] == grids[i];
      if OptimizedCount(init, disk) == |init| && IsOptimizedGrid(disk, grids[n]) {
        assert forall i :: 0 <= i < |grids| ==> IsOptimizedGrid(disk, grids[i]);
      }
      if !(forall i :: 0 <= i < |init| ==> !IsOptimizedGrid(disk, init[i])) {
        var i :| 0 <= i < |init| && IsOptimizedGrid(disk, init[i]);
        assert IsOptimizedGrid(disk, grids[i]);
      }
      if OptimizedCount(init, disk) != |init| {
        var i :| 0 <= i < |init| && !IsOptimizedGrid(disk, init[i]);
        assert !IsOptimizedGrid(disk, grids[i]);
      }
    }
  }

  /** optimized_grids counts the grid sizes classified "optimized". */
  lemma {:induction false} RunLoopCount(grids: seq<string>, disk: map<string, GridDisk>)
    requires RunLoop(grids, disk).Ok?
    ensures RunLoop(grids, disk).value.optimizedGrids == OptimizedCount(grids, disk)
    decreases |grids|
  {
    if grids != [] {
      var n := |grids| - 1;
      RunLoopPrefix(grids, disk);
      RunLoopCount(grids[..n], disk);
      StepFacts(RunLoop(grids[..n], disk).value, grids[n], disk);
    }
  }

  /**
   * total_original_mb is 16 MB per original piece over the grid sizes that
   * have a pieces directory; both totals are positive once a grid size was
   * optimized, so the summary's divisions are safe.
   */
  lemma {:induction false} RunLoopTotals(grids: seq<string>, disk: map<string, GridDisk>)
    requires RunLoop(grids, disk).Ok?
    ensures RunLoop(grids, disk).value.totalOriginalMb == 16.0 * OriginalPieces(grids, disk) as real
    ensures RunLoop(grids, disk).value.totalOptimizedMb == OptimizedMb(grids, disk)
    ensures RunLoop(grids, disk).value.totalOptimizedMb >= 0.0
    ensures RunLoop(grids, disk).value.optimizedGrids > 0 ==>
              RunLoop(grids, disk).value.totalOptimizedMb > 0.0 && RunLoop(grids, disk).value.totalOriginalMb > 0.0
    decreases |grids|
  {
    if grids != [] {
      var n := |grids| - 1;
      var init := grids[..n];
      RunLoopPrefix(grids, disk);
      RunLoopTotals(init, disk);
      var st := RunLoop(init, disk).value;
      StepFacts(st, grids[n], disk);
      assert st.totalOriginalMb >= 0.0;
    }
  }

  /** The report has one entry per analyzed grid size. */
  lemma {:induction false} RunLoopKeys(grids: seq<string>, disk: map<string, GridDisk>)
    requires RunLoop(grids, disk).Ok?
    ensures forall g :: g in RunLoop(grids, disk).value.gridResults <==> g in grids
    decreases |grids|
  {
    if grids != [] {
      var n := |grids| - 1;
      var init := grids[..n];
      RunLoopPrefix(grids, disk);
      RunLoopKeys(init, disk);
      StepFacts(RunLoop(init, disk).value, grids[n], disk);
      assert grids == init + [grids[n]];
    }
  }

  /**
   * Once every optimized grid size has added positive figures to both
   * totals, the summary's divisions never fail; the summary carries the two
   * totals, their difference, the reduction they give and their ratio.
   */
  lemma SummaryFacts(st: RunState, gridCount: nat)
    requires st.optimizedGrids > 0 ==> st.totalOriginalMb > 0.0 && st.totalOptimizedMb > 0.0
    ensures Summarize(st, gridCount).Ok?
    ensures Summarize(st, gridCount).value.NoSummary? <==> st.optimizedGrids == 0
    ensures var sm := Summarize(st, gridCount).value;
            sm.Summary? ==>
              sm.totalGridsAnalyzed == gridCount && sm.optimizedGrids == st.optimizedGrids &&
              sm.totalOriginalMemoryMb == st.totalOriginalMb && sm.totalOptimizedMemoryMb == st.totalOptimizedMb &&
              sm.totalMemorySavedMb == st.totalOriginalMb - st.totalOptimizedMb &&
              sm.overallReductionPercent == (sm.totalMemorySavedMb / sm.totalOriginalMemoryMb) * 100.0 &&
              sm.totalOptimizedMemoryMb > 0.0 &&
              sm.overallCompressionRatio == sm.totalOriginalMemoryMb / sm.totalOptimizedMemoryMb &&
              (sm.optimizationStatus == Complete <==> st.optimizedGrids >= gridCount)
  {
  }

  /**
   * run_benchmark's answer: it raises exactly when some grid size's analysis
   * divides by zero, and then the summary cannot; the summary is present
   * exactly when some grid size was optimized, analyzes every requested grid
   * size, and is "complete" exactly when every one of them was optimized.
   */
  lemma BenchmarkOutcome(gridSizes: Option<seq<string>>, disk: map<string, GridDisk>)
    ensures BenchmarkSpec(gridSizes, disk).Err? <==>
              exists i :: 0 <= i < |RequestedGrids(gridSizes)| && Raises(disk, RequestedGrids(gridSizes)[i])
    ensures BenchmarkSpec(gridSizes, disk).Err? ==> BenchmarkSpec(gridSizes, disk).error.ZeroDivision?
    ensures BenchmarkSpec(gridSizes, disk).Ok? ==>
              var grids := RequestedGrids(gridSizes);
              var report := BenchmarkSpec(gridSizes, disk).value;
              (forall g :: g in report.gridSizes <==> g in grids) &&
              (report.summary.NoSummary? <==> forall i :: 0 <= i < |grids| ==> !IsOptimizedGrid(disk, grids[i])) &&
              (report.summary.Summary? ==>
                 report.summary.totalGridsAnalyzed == |grids| &&
                 0 < report.summary.optimizedGrids <= |grids| &&
                 report.summary.totalOriginalMemoryMb == 16.0 * OriginalPieces(grids, disk) as real &&
                 report.summary.totalOptimizedMemoryMb == OptimizedMb(grids, disk) &&
                 report.summary.totalMemorySavedMb == 16.0 * OriginalPieces(grids, disk) as real - OptimizedMb(grids, disk) &&
                 report.summary.overallReductionPercent ==
                   (report.summary.totalMemorySavedMb / report.summary.totalOriginalMemoryMb) * 100.0 &&
                 report.summary.totalOptimizedMemoryMb > 0.0 &&
                 report.summary.overallCompressionRatio ==
                   report.summary.totalOriginalMemoryMb / report.summary.totalOptimizedMemoryMb &&
                 (report.summary.optimizationStatus == Complete <==>
                    forall i :: 0 <= i < |grids| ==> IsOptimizedGrid(disk, grids[i])))
  {
    var grids := RequestedGrids(gridSizes);
    RunLoopRaisesIff(grids, disk);
    if RunLoop(grids, disk).Ok? {
      RunLoopCount(grids, disk);
      OptimizedCountIff(grids, disk);
      RunLoopTotals(grids, disk);
      RunLoopKeys(grids, disk);
      var st := RunLoop(grids, disk).value;
      SummaryFacts(st, |grids|);
      assert BenchmarkSpec(gridSizes, disk) == Ok(BenchmarkReport(st.gridResults, Summarize(st, |grids|).value));
    }
  }
}
