# Puzzle asset optimizer: a Dafny model

This project models the asset optimizer of a jigsaw puzzle app. There are three optimizer scripts:

- `optimize_puzzle_assets.py` (the original, with padding),
- `optimize_puzzle_assets_fixed.py` (padding, with metadata describing the actual crop),
- `optimize_puzzle_assets_no_padding.py` (exact crop).

Each script reads every piece PNG of a grid size. It finds the tight box around the non-transparent pixels and crops the piece to it. It then writes the cropped piece and an `optimization_metadata.json` telling a renderer where the crop belongs on the canvas. The memory benchmark (`benchmark_memory_optimization.py`) then compares the theoretical original footprint with the footprint of the optimized output.

Modules:

- `Raster` (raster.dfy): RGBA images, PIL's `crop` as a sub-grid, pasting a piece back onto a transparent canvas, and the byte layout of `tobytes()`.
- `Bounds` (bounds.dfy): `find_content_bounds` built the way numpy computes it (`any` per row and column, then `argmax` from both ends), with a reference meaning (`Tight`) and proofs that the detected box is exactly the tight box.
- `PaddedCrop`, `FixedCrop`, `ExactCrop`: each script's crop policy and the `bounds` record it writes.
- `Optimizer` (optimizer.dfy): `optimize_piece` (a `Variant` picks the script), `_load_canvas_info`, `_generate_optimization_metadata`, and `optimize_grid_size` as imperative loops. Each loop is proved equal to a specification function, and that function's properties are proved as lemmas.
- `Puzzle` (puzzle.dfy): grid-size discovery and the `optimize_puzzle` loop.
- `Benchmark` (benchmark.dfy): `calculate_original_memory_usage`, `calculate_optimized_memory_usage`, and the `run_benchmark` loop with its summary.

The file system is modelled as values:

- A pieces directory is a sequence of decoded piece files. It stands for the list `sorted(piece_files)` that every script iterates over, so it is already in sorted path order.
- A layouts directory is a sequence of entries.
- The benchmark's disk is a map from grid size to what lies under it.
- The SHA-256 hex digest is a function parameter `digest`. The model uses only the first eight characters of its result.
- An exception that the scripts catch and log becomes an `Option`/`Result` value. An exception that escapes becomes an `Err` that stops the enclosing loop.
- The canvas entry of `layout.ipuz.json` is kept as parsed JSON: an object whose `width` and `height` may be missing or hold a value `int()` rejects, or a value that is not an object at all.

## Model

| member | source | states |
|---|---|---|
| Raster.Crop | tools/optimize_puzzle_assets_fixed.py:139-140 | the crop has the box's width and height, and its pixel (x, y) is the source pixel (left + x, top + y) |
| Raster.PasteRestoresContent | tools/optimize_puzzle_assets_fixed.py:5-7 | drawing a crop back at the position it was cut from, on a transparent canvas of the source's size, restores the source's alpha everywhere and its exact pixels wherever there is content, provided the crop covers all content |
| Raster.ToBytes | tools/optimize_puzzle_assets_fixed.py:191 | the raw RGBA bytes of an image number width * height * 4 |
| Bounds.ArgMax | tools/optimize_puzzle_assets_fixed.py:112-114 | numpy argmax over booleans: the first true index, or 0 when there is none |
| Bounds.FindContentBounds | tools/optimize_puzzle_assets_fixed.py:84-117 | defined by its body; see Bounds.ContentBoundsCorrect and Bounds.BoundsAreTheTightBox |
| Bounds.LastArgMaxIsLastTrue | tools/optimize_puzzle_assets_fixed.py:113-115 | `len - 1 - argmax(reversed)` is the index of the last true entry |
| Bounds.ContentBoundsCorrect | tools/optimize_puzzle_assets_fixed.py:84-117 | the result is None exactly for a fully transparent image; otherwise it is the tight box: inside the image, covering every content pixel, with content on its four edges |
| Bounds.DetectedEdgesHaveContent | tools/optimize_puzzle_assets_fixed.py:108-117 | the detected box lies inside the image, and its first and last row and column each hold a content pixel |
| Bounds.DetectedBoxCovers | tools/optimize_puzzle_assets_fixed.py:108-117 | every pixel with non-zero alpha lies inside the detected box |
| Bounds.TightUnique | tools/optimize_puzzle_assets_fixed.py:108-117 | an image has at most one tight box |
| Bounds.BoundsAreTheTightBox | tools/optimize_puzzle_assets_fixed.py:84-117 | the detected box equals b exactly when b is tight (both directions) |
| Bounds.FilledRectangleBounds | tools/optimize_puzzle_assets.py:83-116 | an image whose content is exactly a filled rectangle is detected as that rectangle, corners included |
| Bounds.BlankHasNoBounds | tools/optimize_puzzle_assets.py:101-105 | a fully transparent image of any size has no content bounds |
| Bounds.DetectsTestRectangle | tools/test_optimization.py:73-89 | for the red rectangle (50, 30, 150, 120) on a 200x200 canvas, the detected box is exactly (50, 30, 150, 120) |
| PaddedCrop.CropImageToBounds | tools/optimize_puzzle_assets.py:118-138 | the crop is the source's part at the clamped padded top-left and encloses the content box; its width is the inclusive content width plus the padding actually available on each side; it is never larger than the source |
| PaddedCrop.RecordedBounds | tools/optimize_puzzle_assets.py:287-294 | defined by its body; see PaddedCrop.RecordedBoundsMismatch and Optimizer.PaddedRecordMisplacesPiece |
| PaddedCrop.RecordedBoundsMismatch | tools/optimize_puzzle_assets.py:287-294 | the recorded width and height are short of the saved crop's by one plus the applied paddings (1 + 2 * padding when unclamped), and the recorded left/top are offset from the crop's true position by the applied padding |
| PaddedCrop.TestFixtureCropSize | tools/optimize_puzzle_assets.py:131-137 | with padding 2 the fixture's crop is 105 x 95, while width + 4 gives 104 and the recorded width is 100 |
| FixedCrop.CropRectangleBounds | tools/optimize_puzzle_assets_fixed.py:133-136 | the clamped exclusive rectangle lies inside the image and strictly encloses the content box |
| FixedCrop.CreateOptimizedCrop | tools/optimize_puzzle_assets_fixed.py:119-167 | the canvas position is the top-left of the rectangle passed to crop; the crop is the source's part there and encloses the content box; actual_crop_bounds starts at the canvas position, and its right - left is one less than the crop's width |
| FixedCrop.RecordedBounds | tools/optimize_puzzle_assets_fixed.py:319-333 | defined by its body; see FixedCrop.RecordedBoundsMatchCrop |
| FixedCrop.RecordedBoundsMatchCrop | tools/optimize_puzzle_assets_fixed.py:319-333 | the recorded bounds have the saved crop's width, height and position, with inclusive right/bottom equal to those of actual_crop_bounds |
| FixedCrop.SameCropAsPadded | tools/optimize_puzzle_assets_fixed.py:133-140 | the fixed script saves exactly the pixels the original script saves, at the clamped padded box's top-left; only the metadata differs |
| ExactCrop.CropToExactContent | tools/optimize_puzzle_assets_no_padding.py:112-141 | defined by its body; see ExactCrop.ExactCropSucceeds |
| ExactCrop.ExactCropSucceeds | tools/optimize_puzzle_assets_no_padding.py:112-141 | the size check never raises for a box inside the image; the crop is the source's part at the box's corner, with the box's inclusive size |
| ExactCrop.RecordedBounds | tools/optimize_puzzle_assets_no_padding.py:304-311 | defined by its body; see ExactCrop.AgreesWithFixedAtPaddingZero and Optimizer.ExactRecordRestores |
| ExactCrop.AgreesWithFixedAtPaddingZero | tools/optimize_puzzle_assets_no_padding.py:304-311 | with padding 0 the fixed policy crops, positions and records exactly as the no-padding policy does |
| Optimizer.OptimizePiece | tools/optimize_puzzle_assets_fixed.py:174-223 | defined by its body; see Optimizer.PieceSkippedIff and Optimizer.PieceResultFacts |
| Optimizer.ContentHash | tools/optimize_puzzle_assets_fixed.py:169-172 | the hash is a prefix of the hex digest of the raw bytes, of length min(8, digest length) |
| Optimizer.PieceSkippedIff | tools/optimize_puzzle_assets_fixed.py:174-223 | optimize_piece returns None exactly when the file cannot be opened or is fully transparent, under every script; the no-padding size error never causes a skip |
| Optimizer.PieceResultFacts | tools/optimize_puzzle_assets_fixed.py:174-223 | the piece id is the stem; the original size is the image's; the crop is a part of the source that encloses the detected box; the hash is the crop's; memory saved = w*h*4 minus the crop's raw size, and it is non-negative; the constructor matches the script |
| Optimizer.LoadCanvasInfo | tools/optimize_puzzle_assets_fixed.py:297-305 | the layout's canvas entry, unchecked, when the file parses and has one; otherwise the object {width: 2048, height: 2048} |
| Optimizer.Truncate | tools/optimize_puzzle_assets_fixed.py:338-339 | int() of a float truncates toward zero: for x >= 0 the result is the largest integer not above x, for x < 0 the smallest not below it |
| Optimizer.CanvasSizeOf | tools/optimize_puzzle_assets_fixed.py:349-352 | the canvas size converts exactly when the canvas is an object whose width and height are both present and numeric; an integer is kept, a float is truncated, and anything else is the one canvas error |
| Optimizer.CroppedFilenameInjective | tools/optimize_puzzle_assets_fixed.py:342 | two piece ids never share a cropped file name |
| Optimizer.PieceEntry | tools/optimize_puzzle_assets_fixed.py:313-343 | defined by its body; see Optimizer.EntryOk and Optimizer.RecordRestoresPiece |
| Optimizer.PiecesMetadata | tools/optimize_puzzle_assets_fixed.py:311-345 | defined by its body; see Optimizer.MetadataRaisesOnlyOnCanvas, Optimizer.ErrorPersists and Optimizer.PiecesMatchSavedFiles |
| Optimizer.Metadata | tools/optimize_puzzle_assets_fixed.py:307-361 | defined by its body; see Optimizer.MetadataOkIff and Optimizer.GridStatistics |
| Optimizer.ErrorPersists | tools/optimize_puzzle_assets_no_padding.py:293-301 | once the metadata builder has raised on a prefix of the results, it raises the same error on the whole list |
| Optimizer.GenerateOptimizationMetadata | tools/optimize_puzzle_assets_fixed.py:307-361 | the loop builds the document the specification Metadata defines: one entry per result keyed by piece id, then the top-level canvas size; or the first dimension or canvas error |
| Optimizer.ProcessPieces | tools/optimize_puzzle_assets_fixed.py:258-274 | the loop collects one result per optimizable file in order, saves each crop under its cropped file name, and accumulates the original and saved byte totals of exactly those results |
| Optimizer.OptimizeGridSize | tools/optimize_puzzle_assets_fixed.py:225-295 | the method ends in the outcome GridSpec defines: pieces missing, nothing optimized, the saved files with their metadata, or the saved files with the metadata's error |
| Optimizer.ResultsFacts | tools/optimize_puzzle_assets_fixed.py:265-274 | every collected result satisfies optimize_piece's promise (byte accounting, size consistency, the script's constructor) |
| Optimizer.ResultsCountContent | tools/optimize_puzzle_assets_fixed.py:265-274 | there is one result per file with content, and there are none exactly when no file has content |
| Optimizer.SkippedPieceAddsNothing | tools/optimize_puzzle_assets_fixed.py:195-197 | a file without content leaves the results unchanged |
| Optimizer.EntryOk | tools/optimize_puzzle_assets_no_padding.py:293-320 | a size-consistent result gets an entry exactly when the canvas converts, naming its cropped file and carrying the converted canvas size; otherwise the builder raises the canvas error |
| Optimizer.PiecesMatchSavedFiles | tools/optimize_puzzle_assets_fixed.py:313-343 | when each entry records its crop's size, the builder succeeds, each entry names a saved file with exactly the recorded width and height, and every saved file is named by an entry |
| Optimizer.ResultsRecordCropSize | tools/optimize_puzzle_assets_fixed.py:319-343 | under the fixed and no-padding scripts, for a canvas that converts, every collected result's entry records its crop's width and height |
| Optimizer.MetadataRaisesOnlyOnCanvas | tools/optimize_puzzle_assets_no_padding.py:293-320 | for results whose crops have the content size the dimension check never raises: the pieces loop finishes exactly when there is no result or the canvas converts, and otherwise raises the canvas error |
| Optimizer.MetadataOkIff | tools/optimize_puzzle_assets_fixed.py:337-352 | for such results the whole document is written exactly when the canvas converts, with the converted size at the top level; otherwise the builder raises the canvas error, even with no result |
| Optimizer.GridOutcomeCases | tools/optimize_puzzle_assets_fixed.py:225-295 | the pieces are missing exactly when the directory is absent; when some piece has content the grid is optimized exactly when the layout's canvas converts and raises the canvas error exactly when it does not; the dimension check never raises |
| Optimizer.RecordRestoresPiece | tools/optimize_puzzle_assets_fixed.py:5-7 | for a canvas that converts, under the fixed and no-padding scripts, the written entry has the crop's size, and pasting the crop at the recorded left/top restores the piece |
| Optimizer.FixedRecordRestores | tools/optimize_puzzle_assets_fixed.py:143-153 | for a canvas that converts, for the fixed script, the entry has the crop's size, and pasting at the recorded position restores the piece |
| Optimizer.ExactRecordRestores | tools/optimize_puzzle_assets_no_padding.py:304-311 | for a canvas that converts, for the no-padding script, the entry has the crop's size, and pasting at the recorded position restores the piece |
| Optimizer.PaddedRecordMisplacesPiece | tools/optimize_puzzle_assets.py:287-294 | for the test fixture and a canvas that converts, the original script records (50, 30) with width 100 for a 105-pixel crop; pasting there makes the red pixel (50, 30) transparent, so the piece is not restored |
| Optimizer.TotalsAccount | tools/optimize_puzzle_assets_fixed.py:272-274 | the total saved equals the original total minus the crops' raw total; both are non-negative, and the original total is positive once there is a result |
| Optimizer.GridStatistics | tools/optimize_puzzle_assets_fixed.py:354-360 | an optimized grid's statistics count the pieces with content; the optimized total is the crops' raw size; bytes saved = original - optimized; the percentage lies in [0, 100] |
| Optimizer.GridMetadataMatchesFiles | tools/optimize_puzzle_assets_fixed.py:313-343 | under the fixed and no-padding scripts, an optimized grid's metadata names exactly the files this run wrote (files an earlier run left in the directory are outside the model), and each entry states the width and height of the file it names |
| Puzzle.DiscoverGridSizes | tools/optimize_puzzle_assets.py:340-342 | the discovered names are no more than the entries; see Puzzle.DiscoveredIff for which they are |
| Puzzle.DiscoveredIff | tools/optimize_puzzle_assets.py:340-342 | a name is discovered exactly when some entry of that name is a directory not ending in "_optimized" |
| Puzzle.OptimizedOutputNotDiscovered | tools/optimize_puzzle_assets.py:340-342 | a grid size's output directory `<grid>_optimized` is never taken for a grid size |
| Puzzle.SourceFor | tools/optimize_puzzle_assets.py:208-213 | a grid size with no directory of its name reads as a missing pieces directory; when every layout converts, so does the one read |
| Puzzle.OptimizePuzzle | tools/optimize_puzzle_assets.py:322-355 | the loop's answer and the grid runs it made are those PuzzleSpec defines |
| Puzzle.RunningStep | tools/optimize_puzzle_assets.py:346-353 | one iteration either ends the loop on a raising run or collects the run and counts it when it succeeded |
| Puzzle.AbortedStops | tools/optimize_puzzle_assets.py:346-353 | after a run raises, later grid sizes are not attempted |
| Puzzle.RunsEveryGrid | tools/optimize_puzzle_assets.py:346-353 | when no run raises, the loop runs every grid size in order |
| Puzzle.SuccessCountAll | tools/optimize_puzzle_assets.py:346-355 | success_count is at most the number of runs, and equals it exactly when every run succeeded |
| Puzzle.OutcomesAbortIff | tools/optimize_puzzle_assets.py:346-353 | the loop ends on a raised run exactly when one of its grid sizes raises, and its last outcome is the run of one of its grid sizes |
| Puzzle.AllSucceedIff | tools/optimize_puzzle_assets.py:346-355 | the loop ends without raising and with success_count equal to the number of grid sizes exactly when every run succeeded |
| Puzzle.NoGridRunRaises | tools/optimize_puzzle_assets_fixed.py:280-282 | when every layout's canvas converts, no grid run of any script raises |
| Puzzle.OutcomesAreGridRuns | tools/optimize_puzzle_assets.py:346-353 | when every layout's canvas converts, the i-th outcome is optimize_grid_size on the i-th grid size, for every grid size |
| Puzzle.PuzzleSucceedsIff | tools/optimize_puzzle_assets.py:322-355 | optimize_puzzle returns False when the layouts directory is missing, and otherwise True exactly when every grid size it iterates over was optimized; it never raises when every layout's canvas converts |
| Puzzle.PuzzleRaisesIff | tools/optimize_puzzle_assets_fixed.py:363-396 | optimize_puzzle raises exactly when one of the grid sizes it iterates over has a piece with content and a layout canvas that does not convert, and what escapes is the canvas error |
| Puzzle.MissingGridFails | tools/optimize_puzzle_assets.py:211-213 | a requested grid size with no directory keeps the run from answering True; it answers False when every layout's canvas converts |
| Benchmark.RoundHalfEven | tools/benchmark_memory_optimization.py:54 | the result is within 0.5 of its argument, is even when it is exactly 0.5 away, and is non-negative for a non-negative argument |
| Benchmark.Round1 | tools/benchmark_memory_optimization.py:54 | round(x, 1): ten times the result is rounded 10x; it is within 0.05 of x and is non-negative for a non-negative argument |
| Benchmark.CalculateOriginalMemoryUsage | tools/benchmark_memory_optimization.py:34-57 | an error exactly when the pieces directory is missing |
| Benchmark.OriginalUsageFacts | tools/benchmark_memory_optimization.py:44-54 | 16 MiB per piece file, to the byte and to the rounded megabyte; zero exactly for an empty directory |
| Benchmark.Get | tools/benchmark_memory_optimization.py:88-90 | dict.get: the entry when it is present, the default otherwise |
| Benchmark.Average | tools/benchmark_memory_optimization.py:92 | the average times the count is the total, and 0 when there are no pieces |
| Benchmark.SeqMin | tools/benchmark_memory_optimization.py:105 | the minimum is at most every size and is one of them; 0 for no files |
| Benchmark.SeqMax | tools/benchmark_memory_optimization.py:106 | the maximum is at least every size and is one of them; 0 for no files |
| Benchmark.CalculateOptimizedMemoryUsage | tools/benchmark_memory_optimization.py:59-111 | the loop's sum and its list of sizes give the dictionary OptimizedUsageSpec defines |
| Benchmark.OptimizedUsageFacts | tools/benchmark_memory_optimization.py:64-111 | an error exactly when the metadata is missing or unreadable; otherwise the metadata's piece count, the total of the file sizes and their minimum and maximum, the recorded statistics (0 where absent, the percentage within 0.05), and the average per recorded piece to within half a byte |
| Benchmark.RoundedMbZeroIff | tools/benchmark_memory_optimization.py:84-98 | the rounded megabyte figure is 0.0 exactly for fewer than 52429 bytes |
| Benchmark.Analyze | tools/benchmark_memory_optimization.py:145-170 | defined by its body; see Benchmark.AnalysisClassification and Benchmark.AnalyzeRaisesIff |
| Benchmark.AnalysisClassification | tools/benchmark_memory_optimization.py:145-170 | "optimized" exactly when neither side has an error, "not_optimized" exactly when only the optimized side has one, "unavailable" exactly when the original side has one; only "optimized" divides, and it raises exactly on a zero figure |
| Benchmark.RunBenchmark | tools/benchmark_memory_optimization.py:113-191 | the loop and summary give the report BenchmarkSpec defines |
| Benchmark.RunLoopErrorPersists | tools/benchmark_memory_optimization.py:129-172 | once a grid size has raised, the whole run has raised with that error |
| Benchmark.AnalyzeRaisesIff | tools/benchmark_memory_optimization.py:145-148 | a grid size's analysis raises exactly when both sides are readable and the pieces directory is empty or the saved files total fewer than 52429 bytes |
| Benchmark.Step | tools/benchmark_memory_optimization.py:129-172 | defined by its body; see Benchmark.StepFacts |
| Benchmark.StepFacts | tools/benchmark_memory_optimization.py:145-172 | one iteration raises exactly when its analysis does; otherwise it records the grid size, adds 16 MB per original piece, and for an optimized grid size counts it and adds its actual_total_mb to the optimized total, which otherwise stays unchanged |
| Benchmark.RunLoopRaisesIff | tools/benchmark_memory_optimization.py:129-172 | the loop raises exactly when one of its grid sizes does, and what it raises is a grid size's division by zero |
| Benchmark.OptimizedCountIff | tools/benchmark_memory_optimization.py:188 | the count reaches the number of grid sizes exactly when all were optimized, and is 0 exactly when none was |
| Benchmark.RunLoopCount | tools/benchmark_memory_optimization.py:158-160 | optimized_grids counts the grid sizes classified "optimized" |
| Benchmark.OptimizedMb | tools/benchmark_memory_optimization.py:158-160 | defined by its body: the sum of actual_total_mb over the grid sizes both of whose sides can be read; see Benchmark.RunLoopTotals |
| Benchmark.RunLoopTotals | tools/benchmark_memory_optimization.py:158-168 | total_original_mb is 16 MB per original piece and total_optimized_mb is the sum of the optimized grid sizes' actual_total_mb; both are non-negative, and both are positive once a grid size was optimized |
| Benchmark.RunLoopKeys | tools/benchmark_memory_optimization.py:172 | the report has an entry for exactly the analyzed grid sizes |
| Benchmark.Summarize | tools/benchmark_memory_optimization.py:174-189 | defined by its body; see Benchmark.BenchmarkOutcome |
| Benchmark.SummaryFacts | tools/benchmark_memory_optimization.py:174-189 | with positive totals once a grid size was optimized, the summary never raises; it is absent exactly when none was, and otherwise carries the totals, saved = original - optimized, the reduction as saved / original * 100 and the ratio original / optimized, and is "complete" exactly when every grid size was optimized |
| Benchmark.BenchmarkOutcome | tools/benchmark_memory_optimization.py:113-191 | the run raises exactly when some grid size's analysis divides by zero, and the summary's division never raises; the summary exists exactly when some grid size was optimized and then covers every requested grid size, carries both totals, their difference, the reduction percentage and the ratio they give; it is "complete" exactly when all were optimized |

## Left out

- File I/O is not modelled. This covers opening, converting and saving PNGs, `mkdir`, copying `layout.ipuz.json` with `shutil`, and reading JSON. Directories and files are given as values.
- PIL and numpy are modelled only through their meaning on an RGBA pixel grid. This covers `crop`, `convert('RGBA')`, `np.array` and `tobytes`. PIL's zero fill for boxes outside the image is not modelled, because every caller clamps the box.
- SHA-256 is the parameter `digest` and is not computed.
- Glob order is not modelled: the sequence of piece files stands for `sorted(piece_files)`, the order all three scripts iterate in.
- Optimizer.OptimizePiece: an exception while reading a file (the broad `except`) is modelled as a file whose image is None.
- Logging and the progress lines are not modelled. This covers `log` and the percentage messages, among them the division at tools/optimize_puzzle_assets_fixed.py:289. That division only feeds a log line, and Optimizer.TotalsAccount shows its divisor is positive once there is a result.
- Not modelled: `analyze_memory_usage`, `print_benchmark_results`, `save_benchmark_results`, `main` and argument parsing.
- The verification and test scripts are not part of this model.
- Benchmark.Analyze: the analysis values are kept as exact reals rather than rounded. The same goes for `round(...)` in the summary and `potential_savings_gb`. The megabyte figures the divisions depend on, `theoretical_reduction_percent` and `avg_piece_size_bytes` are rounded as the code rounds them.
- Benchmark.CalculateOptimizedMemoryUsage: the gigabyte and kilobyte figures (`actual_total_gb`, `avg_piece_size_kb`) and `grid_dimensions` are not modelled. A statistics entry of the wrong JSON type is not modelled; the entries are numbers or absent.
- Benchmark.RunBenchmark: the `timestamp` and `puzzle_id` of the report are not modelled.
- Optimizer.CanvasSizeOf: the error is one value, CanvasUnusable. The model does not tell KeyError, TypeError and ValueError apart, since none of them is caught.
- Floating-point arithmetic is modelled as exact real arithmetic. A rounded megabyte figure of 0.0 is the case that raises, and it is characterised exactly.

## Findings

| source | as written | input that shows it | evidently intended | confidence | as-written member | corrected member |
|---|---|---|---|---|---|---|
| tools/optimize_puzzle_assets.py:287-294 | the metadata records the unpadded content box, with width right - left, for a crop that was padded and made inclusive | the 200x200 fixture with the red rectangle (50, 30, 150, 120) and padding 2: the saved crop is 105 x 95 and was cut at (48, 28), but the record says (50, 30) with width 100 | the record describes the saved crop's size and position, so that drawing the crop where the record says restores the piece | not executed | Optimizer.PaddedRecordMisplacesPiece | Optimizer.RecordRestoresPiece |
| tools/optimize_puzzle_assets.py:44-50 | BoundingBox.width is right - left for an inclusive box, one short of the columns it covers | box (50, 30, 150, 120) covers 101 columns, but width is 100; the test at tools/test_optimization.py:112-116 therefore expects 104 for a crop of 105 | the width of an inclusive box is right - left + 1, as in tools/optimize_puzzle_assets_no_padding.py:38-44 | not executed | PaddedCrop.TestFixtureCropSize | ExactCrop.ExactCropSucceeds |
