/**
 * optimize_puzzle: the grid sizes of a puzzle's layouts directory (given, or
 * discovered as the sub-directories not ending in "_optimized"), each
 * optimized in turn, and the run succeeding only when every one of them did.
 * An exception raised while optimizing a grid size (int() of a layout
 * canvas without a numeric width and height) is not caught here and ends
 * the run.
 */
module Puzzle {
  import opened Common
  import opened Raster
  import opened Optimizer

  /** One entry of the layouts directory; `source` is what a grid run would read under it. */
  datatype DirEntry = DirEntry(name: string, isDir: bool, source: GridSource)

  predicate ValidEntries(entries: seq<DirEntry>) {
    forall i :: 0 <= i < |entries| ==> ValidSource(entries[i].source)
  }

  /** str.endswith */
  predicate EndsWith(s: string, suffix: string) {
    |suffix| <= |s| && s[|s| - |suffix|..] == suffix
  }

  const OPTIMIZED_SUFFIX := "_optimized"

  /** A layouts entry the discovery keeps: a directory not ending in "_optimized". */
  predicate IsGridDir(e: DirEntry) {
    e.isDir && !EndsWith(e.name, OPTIMIZED_SUFFIX)
  }

  /** The discovered grid sizes, in directory order. */
  function DiscoverGridSizes(entries: seq<DirEntry>): (names: seq<string>)
    ensures |names| <= |entries|
    decreases |entries|
  {
    if entries == [] then []
    else
      var rest := DiscoverGridSizes(entries[..|entries| - 1]);
      var e := entries[|entries| - 1];
      if IsGridDir(e) then rest + [e.name] else rest
  }

  /** A name is discovered exactly when some entry of that name is a grid directory. */
  lemma {:induction false} DiscoveredIff(entries: seq<DirEntry>, name: string)
    ensures name in DiscoverGridSizes(entries) <==>
            exists i :: 0 <= i < |entries| && IsGridDir(entries[i]) && entries[i].name == name
    decreases |entries|
  {
    if entries != [] {
      var init := entries[..|entries| - 1];
      DiscoveredIff(init, name);
      if exists i :: 0 <= i < |init| && IsGridDir(init[i]) && init[i].name == name {
        var i :| 0 <= i < |init| && IsGridDir(init[i]) && init[i].name == name;
        assert entries[i] == init[i];
      }
      if exists i :: 0 <= i < |entries| && IsGridDir(entries[i]) && entries[i].name == name {
        var i :| 0 <= i < |entries| && IsGridDir(entries[i]) && entries[i].name == name;
        if i < |init| {
          assert init[i] == entries[i];
        }
      }
    }
  }

  /** The output directory of a grid size is never itself taken for a grid size. */
  lemma OptimizedOutputNotDiscovered(entries: seq<DirEntry>, grid: string)
    ensures grid + OPTIMIZED_SUFFIX !in DiscoverGridSizes(entries)
  {
    var out := grid + OPTIMIZED_SUFFIX;
    assert out[|out| - |OPTIMIZED_SUFFIX|..] == OPTIMIZED_SUFFIX;
    DiscoveredIff(entries, out);
  }

  /** Every layout of the directory has a canvas the metadata builder can convert, or none at all. */
  predicate UsableLayouts(entries: seq<DirEntry>) {
    forall i :: 0 <= i < |entries| ==> UsableLayout(entries[i].source.layout)
  }

  /** The source a grid run reads: the first directory of that name, or nothing when there is none. */
  function SourceFor(entries: seq<DirEntry>, grid: string): (s: GridSource)
    requires ValidEntries(entries)
    ensures ValidSource(s)
    ensures (forall i :: 0 <= i < |entries| ==> !(entries[i].isDir && entries[i].name == grid)) ==>
              s == GridSource(None, LayoutMissing)
    ensures UsableLayouts(entries) ==> UsableLayout(s.layout)
    decreases |entries|
  {
    if entries == [] then GridSource(None, LayoutMissing)
    else if entries[0].isDir && entries[0].name == grid then entries[0].source
    else SourceFor(entries[1..], grid)
  }

  /** optimize_grid_size as a function of the grid size, run against the layouts directory. */
  function GridRun(variant: Variant, entries: seq<DirEntry>, digest: seq<byte> -> string): string -> GridOutcome
    requires ValidEntries(entries)
  {
    grid => GridSpec(variant, SourceFor(entries, grid), digest)
  }

  /**
   * The outcomes of a loop that runs `run` on each of `grids` in turn and
   * ends with the first run that raised.
   */
  function Outcomes(run: string -> GridOutcome, grids: seq<string>): seq<GridOutcome>
    decreases |grids|
  {
    if grids == [] then []
    else
      var prev := Outcomes(run, grids[..|grids| - 1]);
      if prev != [] && prev[|prev| - 1].Aborted? then prev
      else prev + [run(grids[|grids| - 1])]
  }

  /** success_count: the grid runs that returned True. */
  function SuccessCount(outcomes: seq<GridOutcome>): nat
    decreases |outcomes|
  {
    if outcomes == [] then 0
    else SuccessCount(outcomes[..|outcomes| - 1]) + (if outcomes[|outcomes| - 1].Optimized? then 1 else 0)
  }

  /** The grid sizes optimize_puzzle iterates over. */
  function GridSizes(entries: seq<DirEntry>, gridSizes: Option<seq<string>>): seq<string> {
    if gridSizes.None? then DiscoverGridSizes(entries) else gridSizes.value
  }

  /**
   * optimize_puzzle's answer (or the error that escaped it) and the grid runs
   * it made. `layouts` is None when the layouts directory does not exist.
   */
  function PuzzleSpec(variant: Variant, layouts: Option<seq<DirEntry>>, gridSizes: Option<seq<string>>,
                      digest: seq<byte> -> string): (Result<bool, MetadataError>, seq<GridOutcome>)
    requires layouts.Some? ==> ValidEntries(layouts.value)
  {
    if layouts.None? then (Ok(false), [])
    else
      var grids := GridSizes(layouts.value, gridSizes);
      var outs := Outcomes(GridRun(variant, layouts.value, digest), grids);
      if outs != [] && outs[|outs| - 1].Aborted? then (Err(outs[|outs| - 1].error), outs)
      else (Ok(SuccessCount(outs) == |grids|), outs)
  }

  /**
   * optimize_puzzle: runs optimize_grid_size on each grid size in turn and
   * counts the runs that succeeded.
   */
  method OptimizePuzzle(variant: Variant, layouts: Option<seq<DirEntry>>, gridSizes: Option<seq<string>>,
                        digest: seq<byte> -> string)
    returns (r: Result<bool, MetadataError>, outcomes: seq<GridOutcome>)
    requires layouts.Some? ==> ValidEntries(layouts.value)
    ensures (r, outcomes) == PuzzleSpec(variant, layouts, gridSizes, digest)
  {
    if layouts.None? {
      return Ok(false), [];
    }
    var entries := layouts.value;
    var grids := if gridSizes.None? then DiscoverGridSizes(entries) else gridSizes.value;
    ghost var run := GridRun(variant, entries, digest);
    var successCount := 0;
    outcomes := [];
    for i := 0 to |grids|
      invariant Running(run, grids, i, outcomes, successCount)
    {
      var outcome := OptimizeGridSize(variant, SourceFor(entries, grids[i]), digest);
      assert outcome == run(grids[i]);
      RunningStep(run, grids, i, outcomes, successCount);
      outcomes := outcomes + [outcome];
      if outcome.Aborted? {
        return Err(outcome.error), outcomes;
      }
      if outcome.Optimized? {
        successCount := successCount + 1;
      }
    }
    assert grids[..|grids|] == grids;
    r := Ok(successCount == |grids|);
  }

  /** The loop state after the first i grid sizes, none of which raised. */
  ghost predicate Running(run: string -> GridOutcome, grids: seq<string>, i: nat,
                          outcomes: seq<GridOutcome>, successCount: int)
    requires i <= |grids|
  {
    outcomes == Outcomes(run, grids[..i]) &&
    |outcomes| == i &&
    (forall j :: 0 <= j < i ==> !outcomes[j].Aborted?) &&
    successCount == SuccessCount(outcomes)
  }

  /** One iteration of the loop: the run either raises and ends the loop, or is collected and counted. */
  lemma RunningStep(run: string -> GridOutcome, grids: seq<string>, i: nat,
                    outcomes: seq<GridOutcome>, successCount: int)
    requires i < |grids| && Running(run, grids, i, outcomes, successCount)
    ensures run(grids[i]).Aborted? ==> Outcomes(run, grids) == outcomes + [run(grids[i])]
    ensures !run(grids[i]).Aborted? ==>
              Running(run, grids, i + 1, outcomes + [run(grids[i])],
                      successCount + if run(grids[i]).Optimized? then 1 else 0)
  {
    OutcomesStep(run, grids, i);
    SuccessCountStep(outcomes, run(grids[i]));
    if run(grids[i]).Aborted? {
      AbortedStops(run, grids, i + 1);
    }
  }

  /** While nothing has raised, the next run is collected. */
  lemma OutcomesStep(run: string -> GridOutcome, grids: seq<string>, i: nat)
    requires i < |grids|
    requires forall j :: 0 <= j < |Outcomes(run, grids[..i])| ==> !Outcomes(run, grids[..i])[j].Aborted?
    ensures Outcomes(run, grids[..i + 1]) == Outcomes(run, grids[..i]) + [run(grids[i])]
  {
    assert grids[..i + 1][..i] == grids[..i];
  }

  lemma SuccessCountStep(outcomes: seq<GridOutcome>, o: GridOutcome)
    ensures SuccessCount(outcomes + [o]) == SuccessCount(outcomes) + (if o.Optimized? then 1 else 0)
  {
    assert (outcomes + [o])[..|outcomes|] == outcomes;
  }

  /** Once a run has raised, later grid sizes are not attempted. */
  lemma {:induction false} AbortedStops(run: string -> GridOutcome, grids: seq<string>, k: nat)
    requires 0 < k <= |grids|
    requires Outcomes(run, grids[..k]) != [] &&
             Outcomes(run, grids[..k])[|Outcomes(run, grids[..k])| - 1].Aborted?
    ensures Outcomes(run, grids) == Outcomes(run, grids[..k])
    decreases |grids| - k
  {
    if k < |grids| {
      assert grids[..k + 1][..k] == grids[..k];
      AbortedStops(run, grids, k + 1);
    } else {
      assert grids[..k] == grids;
    }
  }

  /** The entries of xs == prev + [last], one by one. */
  lemma AppendAt(xs: seq<GridOutcome>, prev: seq<GridOutcome>, last: GridOutcome)
    requires xs == prev + [last]
    ensures |xs| == |prev| + 1 && xs[|prev|] == last
    ensures forall i :: 0 <= i < |prev| ==> xs[i] == prev[i]
  {
  }

  /** When no run raises, the loop runs every grid size and collects each run in order. */
  lemma {:induction false} RunsEveryGrid(run: string -> GridOutcome, grids: seq<string>)
    requires forall i :: 0 <= i < |grids| ==> !run(grids[i]).Aborted?
    ensures |Outcomes(run, grids)| == |grids|
    ensures forall i :: 0 <= i < |grids| ==> Outcomes(run, grids)[i] == run(grids[i])
    decreases |grids|
  {
    if grids != [] {
      var n := |grids| - 1;
      var init := grids[..n];
      forall i | 0 <= i < |init|
        ensures !run(init[i]).Aborted?
      {
        assert init[i] == grids[i];
      }
      RunsEveryGrid(run, init);
      OutcomesStep(run, grids, n);
      assert grids[..n + 1] == grids;
      AppendAt(Outcomes(run, grids), Outcomes(run, init), run(grids[n]));
      forall i | 0 <= i < |grids|
        ensures Outcomes(run, grids)[i] == run(grids[i])
      {
        if i < n {
          assert init[i] == grids[i];
        }
      }
    }
  }

  /** The success count reaches the number of runs exactly when every run succeeded. */
  lemma {:induction false} SuccessCountAll(outcomes: seq<GridOutcome>)
    ensures SuccessCount(outcomes) <= |outcomes|
    ensures SuccessCount(outcomes) == |outcomes| <==> forall i :: 0 <= i < |outcomes| ==> outcomes[i].Optimized?
    decreases |outcomes|
  {
    if outcomes != [] {
      var init := outcomes[..|outcomes| - 1];
      SuccessCountAll(init);
      if SuccessCount(outcomes) == |outcomes| {
        forall i | 0 <= i < |outcomes|
          ensures outcomes[i].Optimized?
        {
          if i < |init| {
            assert outcomes[i] == init[i];
          }
        }
      } else if outcomes[|outcomes| - 1].Optimized? {
        var j :| 0 <= j < |init| && !init[j].Optimized?;
        assert outcomes[j] == init[j];
      }
    }
  }

  /**
   * The loop ends with a raised run exactly when one of its grid sizes
   * raises, and its last outcome is the run of one of them.
   */
  lemma {:induction false} OutcomesAbortIff(run: string -> GridOutcome, grids: seq<string>)
    ensures (Outcomes(run, grids) != [] && Outcomes(run, grids)[|Outcomes(run, grids)| - 1].Aborted?) <==>
            exists i :: 0 <= i < |grids| && run(grids[i]).Aborted?
    ensures Outcomes(run, grids) != [] ==>
              exists i :: 0 <= i < |grids| && Outcomes(run, grids)[|Outcomes(run, grids)| - 1] == run(grids[i])
    decreases |grids|
  {
    if grids != [] {
      var n := |grids| - 1;
      var init := grids[..n];
      assert forall i :: 0 <= i < n ==> init[i] == grids[i];
      OutcomesAbortIff(run, init);
      var prev := Outcomes(run, init);
      if !(prev != [] && prev[|prev| - 1].Aborted?) {
        assert Outcomes(run, grids) == prev + [run(grids[n])];
      }
    }
  }

  /** When every layout converts, no grid run raises. */
  lemma NoGridRunRaises(variant: Variant, entries: seq<DirEntry>, digest: seq<byte> -> string)
    requires ValidEntries(entries) && UsableLayouts(entries)
    ensures forall grid :: !GridRun(variant, entries, digest)(grid).Aborted?
  {
    forall grid
      ensures !GridRun(variant, entries, digest)(grid).Aborted?
    {
      var source := SourceFor(entries, grid);
      GridOutcomeCases(variant, source, digest);
    }
  }

  /**
   * When every layout converts, optimize_puzzle runs every grid size: the
   * i-th outcome is optimize_grid_size on the i-th grid size.
   */
  lemma OutcomesAreGridRuns(variant: Variant, entries: seq<DirEntry>, grids: seq<string>,
                            digest: seq<byte> -> string)
    requires ValidEntries(entries) && UsableLayouts(entries)
    ensures |Outcomes(GridRun(variant, entries, digest), grids)| == |grids|
    ensures forall i :: 0 <= i < |grids| ==>
              Outcomes(GridRun(variant, entries, digest), grids)[i] ==
              GridSpec(variant, SourceFor(entries, grids[i]), digest)
  {
    NoGridRunRaises(variant, entries, digest);
    RunsEveryGrid(GridRun(variant, entries, digest), grids);
  }

  /**
   * The loop ends without a raised run and with every grid size counted
   * exactly when every run succeeded.
   */
  lemma AllSucceedIff(run: string -> GridOutcome, grids: seq<string>)
    ensures (!(Outcomes(run, grids) != [] && Outcomes(run, grids)[|Outcomes(run, grids)| - 1].Aborted?) &&
             SuccessCount(Outcomes(run, grids)) == |grids|) <==>
            forall i :: 0 <= i < |grids| ==> run(grids[i]).Optimized?
  {
    OutcomesAbortIff(run, grids);
    if forall i :: 0 <= i < |grids| ==> !run(grids[i]).Aborted? {
      RunsEveryGrid(run, grids);
      SuccessCountAll(Outcomes(run, grids));
    }
  }

  /**
   * optimize_puzzle returns False when the layouts directory is missing, and
   * otherwise returns True exactly when every grid size it iterates over was
   * optimized; it never raises when every layout converts.
   */
  lemma PuzzleSucceedsIff(variant: Variant, layouts: Option<seq<DirEntry>>, gridSizes: Option<seq<string>>,
                          digest: seq<byte> -> string)
    requires layouts.Some? ==> ValidEntries(layouts.value)
    ensures layouts.None? ==> PuzzleSpec(variant, layouts, gridSizes, digest).0 == Ok(false)
    ensures layouts.Some? && UsableLayouts(layouts.value) ==> PuzzleSpec(variant, layouts, gridSizes, digest).0.Ok?
    ensures layouts.Some? ==>
              (PuzzleSpec(variant, layouts, gridSizes, digest).0 == Ok(true) <==>
               forall i :: 0 <= i < |GridSizes(layouts.value, gridSizes)| ==>
                 GridSpec(variant, SourceFor(layouts.value, GridSizes(layouts.value, gridSizes)[i]), digest).Optimized?)
  {
    if layouts.Some? {
      var entries := layouts.value;
      var grids := GridSizes(entries, gridSizes);
      var run := GridRun(variant, entries, digest);
      AllSucceedIff(run, grids);
      assert forall i :: 0 <= i < |grids| ==> run(grids[i]) == GridSpec(variant, SourceFor(entries, grids[i]), digest);
      if UsableLayouts(entries) {
        NoGridRunRaises(variant, entries, digest);
        OutcomesAbortIff(run, grids);
      }
    }
  }

  /**
   * optimize_puzzle raises exactly when one of the grid sizes it iterates
   * over has a piece with content and a layout canvas that does not convert,
   * and what it raises is that conversion's error.
   */
  lemma PuzzleRaisesIff(variant: Variant, entries: seq<DirEntry>, gridSizes: Option<seq<string>>,
                        digest: seq<byte> -> string)
    requires ValidEntries(entries)
    ensures PuzzleSpec(variant, Some(entries), gridSizes, digest).0.Err? <==>
            exists i :: 0 <= i < |GridSizes(entries, gridSizes)| &&
                        RaisesOnCanvas(SourceFor(entries, GridSizes(entries, gridSizes)[i]))
    ensures PuzzleSpec(variant, Some(entries), gridSizes, digest).0.Err? ==>
              PuzzleSpec(variant, Some(entries), gridSizes, digest).0.error == CanvasUnusable
  {
    var grids := GridSizes(entries, gridSizes);
    var run := GridRun(variant, entries, digest);
    forall i | 0 <= i < |grids|
      ensures run(grids[i]).Aborted? <==> RaisesOnCanvas(SourceFor(entries, grids[i]))
      ensures run(grids[i]).Aborted? ==> run(grids[i]).error == CanvasUnusable
    {
      GridOutcomeCases(variant, SourceFor(entries, grids[i]), digest);
    }
    OutcomesAbortIff(run, grids);
  }

  /**
   * A requested grid size with no directory of that name keeps the run from
   * answering True; it answers False when every layout converts.
   */
  lemma MissingGridFails(variant: Variant, entries: seq<DirEntry>, grids: seq<string>, k: nat,
                         digest: seq<byte> -> string)
    requires ValidEntries(entries) && k < |grids|
    requires forall i :: 0 <= i < |entries| ==> !(entries[i].isDir && entries[i].name == grids[k])
    ensures PuzzleSpec(variant, Some(entries), Some(grids), digest).0 != Ok(true)
    ensures UsableLayouts(entries) ==> PuzzleSpec(variant, Some(entries), Some(grids), digest).0 == Ok(false)
  {
    PuzzleSucceedsIff(variant, Some(entries), Some(grids), digest);
    assert SourceFor(entries, grids[k]) == GridSource(None, LayoutMissing);
    GridOutcomeCases(variant, GridSource(None, LayoutMissing), digest);
  }
}
