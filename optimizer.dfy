/**
 * The pipeline the three optimizer scripts share: optimize_piece (byte
 * arithmetic and the choice of crop policy), the accumulation loop of
 * optimize_grid_size, _load_canvas_info, _generate_optimization_metadata and
 * what the rest of the run sees of them. Directories are given as sequences of
 * already-decoded files; images are never read or written.
 */
module Optimizer {
  import opened Common
  import opened Raster
  import opened Bounds
  import PaddedCrop
  import FixedCrop
  import ExactCrop

  /**
   * Which script runs: optimize_puzzle_assets.py, optimize_puzzle_assets_fixed.py
   * or optimize_puzzle_assets_no_padding.py.
   */
  datatype Variant = Padded | Fixed | NoPadding

  /** The padding optimize_piece passes to the crop in the first two scripts. */
  const PADDING: nat := 2

  /** RGBA: four bytes per pixel. */
  const BYTES_PER_PIXEL: nat := 4

  /** A *.png file of a pieces directory: its stem, and its image (None when it cannot be opened). */
  datatype PieceFile = PieceFile(stem: string, image: Option<Image>)

  predicate ValidFile(f: PieceFile) {
    f.image.Some? ==> WellFormed(f.image.value)
  }

  predicate HasContent(f: PieceFile)
    requires ValidFile(f)
  {
    f.image.Some? && AnyContent(f.image.value)
  }

  /** PieceOptimizationResult, one constructor per script. */
  datatype PieceResult =
    | PaddedResult(pieceId: string, originalWidth: nat, originalHeight: nat,
                   bounds: BoundingBox, croppedImage: Image,
                   contentHash: string, memorySavedBytes: int)
    | FixedResult(pieceId: string, originalWidth: nat, originalHeight: nat,
                  croppedInfo: FixedCrop.CroppedImageInfo,
                  contentHash: string, memorySavedBytes: int)
    | ExactResult(pieceId: string, originalWidth: nat, originalHeight: nat,
                  contentBounds: BoundingBox, croppedImage: Image,
                  contentHash: string, memorySavedBytes: int)
  {
    /** The image saved as the optimized piece. */
    function Cropped(): Image {
      if FixedResult? then croppedInfo.croppedImage else croppedImage
    }
  }

  /** calculate_content_hash: the first eight characters of the hex digest of image.tobytes(). */
  function ContentHash(digest: seq<byte> -> string, img: Image): (h: string)
    requires WellFormed(img)
    ensures h <= digest(ToBytes(img))
    ensures |h| == Min(8, |digest(ToBytes(img))|)
  {
    var hex := digest(ToBytes(img));
    if |hex| <= 8 then hex else hex[..8]
  }

  /**
   * optimize_piece. None when the file cannot be opened, when the image is
   * fully transparent, or when the no-padding size check raises (all three
   * are caught and logged by the script).
   */
  function OptimizePiece(variant: Variant, f: PieceFile, digest: seq<byte> -> string): Option<PieceResult>
    requires ValidFile(f)
  {
    match f.image
    case None => None
    case Some(img) =>
      var originalBytes := img.width * img.height * BYTES_PER_PIXEL;
      match FindContentBounds(img)
      case None => None
      case Some(b) =>
        ContentBoundsCorrect(img);
        match variant
        case Padded =>
          var c := PaddedCrop.CropImageToBounds(img, b, PADDING);
          Some(PaddedResult(f.stem, img.width, img.height, b, c, ContentHash(digest, c),
                            originalBytes - c.width * c.height * BYTES_PER_PIXEL))
        case Fixed =>
          var info := FixedCrop.CreateOptimizedCrop(img, b, PADDING);
          var c := info.croppedImage;
          Some(FixedResult(f.stem, img.width, img.height, info, ContentHash(digest, c),
                           originalBytes - c.width * c.height * BYTES_PER_PIXEL))
        case NoPadding =>
          match ExactCrop.CropToExactContent(img, b)
          case Err(_) => None
          case Ok(c) =>
            Some(ExactResult(f.stem, img.width, img.height, b, c, ContentHash(digest, c),
                             originalBytes - c.width * c.height * BYTES_PER_PIXEL))
  }

  /** The byte accounting of one result: memory_saved = w*h*4 - cw*ch*4, with the crop no larger than the original. */
  ghost predicate WellAccounted(r: PieceResult) {
    WellFormed(r.Cropped()) &&
    0 < r.originalWidth && 0 < r.originalHeight &&
    r.Cropped().width <= r.originalWidth && r.Cropped().height <= r.originalHeight &&
    r.memorySavedBytes == r.originalWidth * r.originalHeight * BYTES_PER_PIXEL - |ToBytes(r.Cropped())| &&
    r.memorySavedBytes >= 0
  }

  /** The no-padding result's crop has the content box's inclusive size (what its metadata builder checks). */
  ghost predicate SizeConsistent(r: PieceResult) {
    r.ExactResult? ==>
      r.croppedImage.width == InclusiveWidth(r.contentBounds) &&
      r.croppedImage.height == InclusiveHeight(r.contentBounds)
  }

  /** A piece is skipped exactly when its file cannot be opened or its image is fully transparent. */
  lemma PieceSkippedIff(variant: Variant, f: PieceFile, digest: seq<byte> -> string)
    requires ValidFile(f)
    ensures OptimizePiece(variant, f, digest).None? <==> !HasContent(f)
  {
    if HasContent(f) {
      var img := f.image.value;
      ContentBoundsCorrect(img);
      ExactCrop.ExactCropSucceeds(img, FindContentBounds(img).value);
    } else if f.image.Some? {
      ContentBoundsCorrect(f.image.value);
    }
  }

  /**
   * What optimize_piece promises of a result: the piece id is the file stem,
   * the original size is the image's, the crop is the source's part at some
   * position and encloses the detected content box, the hash is the hash of
   * the crop, and the bytes saved are w*h*4 minus the crop's raw size.
   */
  lemma PieceResultFacts(variant: Variant, f: PieceFile, digest: seq<byte> -> string)
    requires ValidFile(f) && OptimizePiece(variant, f, digest).Some?
    ensures var r := OptimizePiece(variant, f, digest).value;
            var img := f.image.value;
            r.pieceId == f.stem &&
            r.originalWidth == img.width && r.originalHeight == img.height &&
            FindContentBounds(img).Some? &&
            (exists left, top :: IsCropAt(img, r.Cropped(), left, top) &&
                                 Encloses(r.Cropped(), left, top, FindContentBounds(img).value)) &&
            r.contentHash == ContentHash(digest, r.Cropped()) &&
            WellAccounted(r) && SizeConsistent(r) &&
            (r.PaddedResult? <==> variant == Padded) &&
            (r.FixedResult? <==> variant == Fixed) &&
            (r.ExactResult? <==> variant == NoPadding)
  {
    var r := OptimizePiece(variant, f, digest).value;
    var img := f.image.value;
    ContentBoundsCorrect(img);
    var b := FindContentBounds(img).value;
    var left, top;
    match variant {
      case Padded =>
        var p := PaddedCrop.PaddedBounds(img, b, PADDING);
        left, top := p.left, p.top;
      case Fixed =>
        left, top := r.croppedInfo.canvasPositionLeft, r.croppedInfo.canvasPositionTop;
      case NoPadding =>
        ExactCrop.ExactCropSucceeds(img, b);
        left, top := b.left, b.top;
    }
    assert IsCropAt(img, r.Cropped(), left, top) && Encloses(r.Cropped(), left, top, b);
    MulMonotone(r.Cropped().width, r.Cropped().height, img.width, img.height);
  }

  /** The canvas size written into optimization_metadata.json: {"width": int, "height": int}. */
  datatype CanvasSize = CanvasSize(width: int, height: int)

  /**
   * A JSON value that the metadata builder hands to int(): one int() reads as
   * an integer (a JSON integer, a boolean as 0 or 1, a string of decimal
   * digits), a finite float, or anything else, which int() rejects (null, a
   * list, an object, any other string, a non-finite float).
   */
  datatype CanvasField = IntValue(i: int) | FloatValue(x: real) | OtherValue

  /**
   * What _load_canvas_info returns, used unchecked: an object whose "width" and
   * "height" entries may be missing, or a value that cannot be indexed by a key.
   */
  datatype CanvasInfo = CanvasObject(width: Option<CanvasField>, height: Option<CanvasField>) | NotAnObject

  /** The fallback canvas of _load_canvas_info: {'width': 2048, 'height': 2048}. */
  const DEFAULT_CANVAS := CanvasObject(Some(IntValue(2048)), Some(IntValue(2048)))

  /** layout.ipuz.json as _load_canvas_info finds it; `canvas` is its "canvas" entry, when it has one. */
  datatype LayoutFile = LayoutMissing | LayoutUnreadable | LayoutParsed(canvas: Option<CanvasInfo>)

  /**
   * _load_canvas_info: the layout's canvas entry, whatever it holds, or
   * 2048 x 2048 when the file is missing, cannot be parsed, or has no canvas entry.
   */
  function LoadCanvasInfo(layout: LayoutFile): (c: CanvasInfo)
    ensures layout.LayoutParsed? && layout.canvas.Some? ==> c == layout.canvas.value
    ensures !(layout.LayoutParsed? && layout.canvas.Some?) ==> c == DEFAULT_CANVAS
  {
    match layout
    case LayoutParsed(Some(canvas)) => canvas
    case _ => DEFAULT_CANVAS
  }

  /** int() of a float: truncation toward zero. */
  function Truncate(x: real): (k: int)
    ensures x >= 0.0 ==> 0 <= k && k as real <= x < k as real + 1.0
    ensures x < 0.0 ==> k <= 0 && k as real - 1.0 < x <= k as real
  {
    if x >= 0.0 then x.Floor else -((-x).Floor)
  }

  /** int() of a field, or None where int() raises. */
  function IntOf(f: CanvasField): Option<int> {
    match f
    case IntValue(i) => Some(i)
    case FloatValue(x) => Some(Truncate(x))
    case OtherValue => None
  }

  /**
   * {"width": int(canvas_info['width']), "height": int(canvas_info['height'])},
   * or the KeyError, TypeError or ValueError that evaluating it raises. The
   * size is there exactly when the canvas is an object with both entries
   * numeric, and each side is its entry truncated toward zero.
   */
  function CanvasSizeOf(canvas: CanvasInfo): (s: Result<CanvasSize, MetadataError>)
    ensures s.Ok? <==> canvas.CanvasObject? && canvas.width.Some? && canvas.height.Some? &&
                       !canvas.width.value.OtherValue? && !canvas.height.value.OtherValue?
    ensures s.Err? ==> s.error == CanvasUnusable
    ensures s.Ok? && canvas.width.value.IntValue? ==> s.value.width == canvas.width.value.i
    ensures s.Ok? && canvas.width.value.FloatValue? ==> s.value.width == Truncate(canvas.width.value.x)
    ensures s.Ok? && canvas.height.value.IntValue? ==> s.value.height == canvas.height.value.i
    ensures s.Ok? && canvas.height.value.FloatValue? ==> s.value.height == Truncate(canvas.height.value.x)
  {
    match canvas
    case NotAnObject => Err(CanvasUnusable)
    case CanvasObject(w, h) =>
      if w.None? || h.None? then Err(CanvasUnusable)
      else
        match (IntOf(w.value), IntOf(h.value))
        case (Some(width), Some(height)) => Ok(CanvasSize(width, height))
        case _ => Err(CanvasUnusable)
  }

  /** The canvas can be written into the metadata. */
  predicate UsableCanvas(canvas: CanvasInfo) {
    CanvasSizeOf(canvas).Ok?
  }

  /** The canvas _load_canvas_info finds in the layout can be written into the metadata. */
  predicate UsableLayout(layout: LayoutFile) {
    UsableCanvas(LoadCanvasInfo(layout))
  }

  /** One entry of the "pieces" object of optimization_metadata.json. */
  datatype PieceRecord = PieceRecord(bounds: BoundsRecord, canvasSize: CanvasSize,
                                     contentHash: string, croppedFilename: string)

  datatype Statistics = Statistics(memoryReductionPercent: real, totalPieces: nat,
                                   originalTotalBytes: int, optimizedTotalBytes: int, bytesSaved: int)

  /** optimization_metadata.json */
  datatype OptimizationMetadata = OptimizationMetadata(version: string, canvasSize: CanvasSize,
                                                       pieces: map<string, PieceRecord>,
                                                       statistics: Statistics)

  /**
   * What _generate_optimization_metadata raises: the ValueError "dimension
   * mismatch!" of the no-padding builder, or the exception int(canvas_info[...])
   * raises for a canvas that is not an object with two numeric entries.
   */
  datatype MetadataError =
    | DimensionMismatch(pieceId: string, expectedWidth: int, expectedHeight: int,
                        actualWidth: int, actualHeight: int)
    | CanvasUnusable

  /** The name the optimized piece is saved under, and the cropped_filename recorded for it. */
  function CroppedFilename(pieceId: string): string {
    pieceId + ".png"
  }

  lemma CroppedFilenameInjective(a: string, b: string)
    requires CroppedFilename(a) == CroppedFilename(b)
    ensures a == b
  {
    assert a == CroppedFilename(a)[..|a|];
    assert b == CroppedFilename(b)[..|b|];
  }

  /** The record of one piece once its bounds are computed: the canvas size is converted when it is written. */
  function Record(bounds: BoundsRecord, canvas: CanvasInfo, hash: string, id: string): Result<PieceRecord, MetadataError> {
    match CanvasSizeOf(canvas)
    case Err(e) => Err(e)
    case Ok(size) => Ok(PieceRecord(bounds, size, hash, CroppedFilename(id)))
  }

  /**
   * The metadata entry each script's builder writes for one result; the
   * no-padding builder checks the dimensions before it converts the canvas.
   */
  function PieceEntry(r: PieceResult, canvas: CanvasInfo): Result<PieceRecord, MetadataError> {
    match r
    case PaddedResult(id, _, _, b, _, hash, _) =>
      Record(PaddedCrop.RecordedBounds(b), canvas, hash, id)
    case FixedResult(id, _, _, info, hash, _) =>
      Record(FixedCrop.RecordedBounds(info), canvas, hash, id)
    case ExactResult(id, _, _, b, c, hash, _) =>
      if c.width != InclusiveWidth(b) || c.height != InclusiveHeight(b)
      then Err(DimensionMismatch(id, InclusiveWidth(b), InclusiveHeight(b), c.width, c.height))
      else Record(ExactCrop.RecordedBounds(b), canvas, hash, id)
  }

  /** The "pieces" object after the builder's loop has seen `results`, or the first error it raised. */
  function PiecesMetadata(results: seq<PieceResult>, canvas: CanvasInfo): Result<map<string, PieceRecord>, MetadataError>
    decreases |results|
  {
    if results == [] then Ok(map[])
    else
      var last := results[|results| - 1];
      match PiecesMetadata(results[..|results| - 1], canvas)
      case Err(e) => Err(e)
      case Ok(m) =>
        match PieceEntry(last, canvas)
        case Err(e) => Err(e)
        case Ok(rec) => Ok(m[last.pieceId := rec])
  }

  function MetadataStatistics(count: nat, totalOriginalBytes: int, totalSavedBytes: int): Statistics {
    var percent := if totalOriginalBytes > 0
                   then (totalSavedBytes as real / totalOriginalBytes as real) * 100.0
                   else 0.0;
    Statistics(percent, count, totalOriginalBytes, totalOriginalBytes - totalSavedBytes, totalSavedBytes)
  }

  /**
   * The document _generate_optimization_metadata returns, or the error it
   * raises: the pieces loop first, then the top-level canvas size.
   */
  function Metadata(results: seq<PieceResult>, canvas: CanvasInfo, totalOriginalBytes: int, totalSavedBytes: int)
    : Result<OptimizationMetadata, MetadataError>
  {
    match PiecesMetadata(results, canvas)
    case Err(e) => Err(e)
    case Ok(pieces) =>
      match CanvasSizeOf(canvas)
      case Err(e) => Err(e)
      case Ok(size) =>
        Ok(OptimizationMetadata("1.0", size, pieces,
                                MetadataStatistics(|results|, totalOriginalBytes, totalSavedBytes)))
  }

  /** Once the builder has raised on a prefix, it has raised on the whole sequence. */
  lemma {:induction false} ErrorPersists(results: seq<PieceResult>, k: nat, canvas: CanvasInfo)
    requires k <= |results| && PiecesMetadata(results[..k], canvas).Err?
    ensures PiecesMetadata(results, canvas) == PiecesMetadata(results[..k], canvas)
    decreases |results| - k
  {
    if k < |results| {
      var prefix := results[..k + 1];
      assert prefix[..k] == results[..k];
      assert PiecesMetadata(prefix, canvas) == PiecesMetadata(results[..k], canvas);
      assert results[..k + 1][..k + 1] == results[..k + 1];
      ErrorPersists(results, k + 1, canvas);
    } else {
      assert results[..k] == results;
    }
  }

  /**
   * _generate_optimization_metadata: fills the pieces dict result by result,
   * then converts the top-level canvas size.
   */
  method GenerateOptimizationMetadata(results: seq<PieceResult>, canvas: CanvasInfo,
                                      totalOriginalBytes: int, totalSavedBytes: int)
    returns (md: Result<OptimizationMetadata, MetadataError>)
    ensures md == Metadata(results, canvas, totalOriginalBytes, totalSavedBytes)
  {
    var pieces: map<string, PieceRecord> := map[];
    for i := 0 to |results|
      invariant PiecesMetadata(results[..i], canvas) == Ok(pieces)
    {
      assert results[..i + 1][..i] == results[..i];
      var entry := PieceEntry(results[i], canvas);
      if entry.Err? {
        ErrorPersists(results, i + 1, canvas);
        return Err(entry.error);
      }
      pieces := pieces[results[i].pieceId := entry.value];
    }
    assert results[..|results|] == results;
    var size := CanvasSizeOf(canvas);
    if size.Err? {
      return Err(size.error);
    }
    md := Ok(OptimizationMetadata("1.0", size.value, pieces,
                                  MetadataStatistics(|results|, totalOriginalBytes, totalSavedBytes)));
  }

  /** A grid size's layout directory: its pieces directory (None when missing) and its layout file. */
  datatype GridSource = GridSource(pieces: Option<seq<PieceFile>>, layout: LayoutFile)

  predicate ValidSource(source: GridSource) {
    source.pieces.Some? ==> forall i :: 0 <= i < |source.pieces.value| ==> ValidFile(source.pieces.value[i])
  }

  /**
   * What optimize_grid_size ends in. `saved` is the files this run wrote
   * into the optimized pieces directory: file name to the image written
   * under it. Files an earlier run left there (mkdir with exist_ok) are not
   * part of it.
   */
  datatype GridOutcome =
    | PiecesMissing
    | NothingOptimized
    | Optimized(saved: map<string, Image>, metadata: OptimizationMetadata)
    | Aborted(saved: map<string, Image>, error: MetadataError)

  /** The results list after the loop over `files` (already in sorted order). */
  function Results(variant: Variant, files: seq<PieceFile>, digest: seq<byte> -> string): seq<PieceResult>
    requires forall i :: 0 <= i < |files| ==> ValidFile(files[i])
    decreases |files|
  {
    if files == [] then []
    else
      var rest := Results(variant, files[..|files| - 1], digest);
      match OptimizePiece(variant, files[|files| - 1], digest)
      case None => rest
      case Some(r) => rest + [r]
  }

  function TotalOriginalBytes(results: seq<PieceResult>): int
    decreases |results|
  {
    if results == [] then 0
    else
      var r := results[|results| - 1];
      TotalOriginalBytes(results[..|results| - 1]) + r.originalWidth * r.originalHeight * BYTES_PER_PIXEL
  }

  function TotalSavedBytes(results: seq<PieceResult>): int
    decreases |results|
  {
    if results == [] then 0
    else TotalSavedBytes(results[..|results| - 1]) + results[|results| - 1].memorySavedBytes
  }

  /** The raw size of the saved crops: the sum of cw*ch*4. */
  function TotalCroppedBytes(results: seq<PieceResult>): int
    decreases |results|
  {
    if results == [] then 0
    else
      var c := results[|results| - 1].Cropped();
      TotalCroppedBytes(results[..|results| - 1]) + c.width * c.height * BYTES_PER_PIXEL
  }

  /** The files the loop has written into the optimized pieces directory, one per result's crop. */
  function SavedFiles(results: seq<PieceResult>): map<string, Image>
    decreases |results|
  {
    if results == [] then map[]
    else
      var r := results[|results| - 1];
      SavedFiles(results[..|results| - 1])[CroppedFilename(r.pieceId) := r.Cropped()]
  }

  /** optimize_grid_size as a function of the directory it reads. */
  function GridSpec(variant: Variant, source: GridSource, digest: seq<byte> -> string): GridOutcome
    requires ValidSource(source)
  {
    if source.pieces.None? then PiecesMissing
    else
      var results := Results(variant, source.pieces.value, digest);
      if results == [] then NothingOptimized
      else
        match Metadata(results, LoadCanvasInfo(source.layout),
                       TotalOriginalBytes(results), TotalSavedBytes(results))
        case Err(e) => Aborted(SavedFiles(results), e)
        case Ok(md) => Optimized(SavedFiles(results), md)
  }

  /**
   * optimize_grid_size: optimizes each piece in order, saves every result,
   * accumulates the byte totals, and builds the metadata when some piece
   * produced a result.
   */
  method OptimizeGridSize(variant: Variant, source: GridSource, digest: seq<byte> -> string)
    returns (outcome: GridOutcome)
    requires ValidSource(source)
    ensures outcome == GridSpec(variant, source, digest)
  {
    if source.pieces.None? {
      return PiecesMissing;
    }
    var results, saved, totalOriginalBytes, totalSavedBytes := ProcessPieces(variant, source.pieces.value, digest);
    assert saved == SavedFiles(results) && totalOriginalBytes == TotalOriginalBytes(results) &&
           totalSavedBytes == TotalSavedBytes(results);
    if results == [] {
      return NothingOptimized;
    }
    var canvas := LoadCanvasInfo(source.layout);
    var md := GenerateOptimizationMetadata(results, canvas, totalOriginalBytes, totalSavedBytes);
    match md {
      case Err(e) => outcome := Aborted(saved, e);
      case Ok(m) => outcome := Optimized(saved, m);
    }
  }

  /**
   * The loop of optimize_grid_size over the sorted piece files: each result
   * is saved under <piece_id>.png, appended, and added to the two totals.
   */
  method ProcessPieces(variant: Variant, files: seq<PieceFile>, digest: seq<byte> -> string)
    returns (results: seq<PieceResult>, saved: map<string, Image>, totalOriginalBytes: int, totalSavedBytes: int)
    requires forall i :: 0 <= i < |files| ==> ValidFile(files[i])
    ensures results == Results(variant, files, digest)
    ensures Accumulated(results, saved, totalOriginalBytes, totalSavedBytes)
  {
    results, saved, totalOriginalBytes, totalSavedBytes := [], map[], 0, 0;
    for i := 0 to |files|
      invariant Processed(variant, files, i, digest, results, saved, totalOriginalBytes, totalSavedBytes)
    {
      var result := OptimizePiece(variant, files[i], digest);
      ProcessStep(variant, files, i, digest, results, saved, totalOriginalBytes, totalSavedBytes);
      if result.Some? {
        var r := result.value;
        saved := saved[CroppedFilename(r.pieceId) := r.Cropped()];
        results := results + [r];
        totalOriginalBytes := totalOriginalBytes + r.originalWidth * r.originalHeight * BYTES_PER_PIXEL;
        totalSavedBytes := totalSavedBytes + r.memorySavedBytes;
      }
    }
    assert files[..|files|] == files;
  }

  /** The saved files and byte totals agree with the results collected so far. */
  ghost predicate Accumulated(results: seq<PieceResult>, saved: map<string, Image>,
                              totalOriginalBytes: int, totalSavedBytes: int)
  {
    saved == SavedFiles(results) &&
    totalOriginalBytes == TotalOriginalBytes(results) &&
    totalSavedBytes == TotalSavedBytes(results)
  }

  /** The loop state of process_pieces after the first i files. */
  ghost predicate Processed(variant: Variant, files: seq<PieceFile>, i: nat, digest: seq<byte> -> string,
                            results: seq<PieceResult>, saved: map<string, Image>,
                            totalOriginalBytes: int, totalSavedBytes: int)
    requires forall k :: 0 <= k < |files| ==> ValidFile(files[k])
    requires i <= |files|
  {
    results == Results(variant, files[..i], digest) &&
    Accumulated(results, saved, totalOriginalBytes, totalSavedBytes)
  }

  /** One iteration of the loop: a skipped file changes nothing, a result is collected and counted. */
  lemma ProcessStep(variant: Variant, files: seq<PieceFile>, i: nat, digest: seq<byte> -> string,
                    results: seq<PieceResult>, saved: map<string, Image>,
                    totalOriginalBytes: int, totalSavedBytes: int)
    requires forall k :: 0 <= k < |files| ==> ValidFile(files[k])
    requires i < |files|
    requires Processed(variant, files, i, digest, results, saved, totalOriginalBytes, totalSavedBytes)
    ensures OptimizePiece(variant, files[i], digest).None? ==>
              Processed(variant, files, i + 1, digest, results, saved, totalOriginalBytes, totalSavedBytes)
    ensures OptimizePiece(variant, files[i], digest).Some? ==>
              var r := OptimizePiece(variant, files[i], digest).value;
              Processed(variant, files, i + 1, digest, results + [r],
                        saved[CroppedFilename(r.pieceId) := r.Cropped()],
                        totalOriginalBytes + r.originalWidth * r.originalHeight * BYTES_PER_PIXEL,
                        totalSavedBytes + r.memorySavedBytes)
  {
    ResultsStep(variant, files, i, digest);
    if OptimizePiece(variant, files[i], digest).Some? {
      AccumulateStep(results, saved, totalOriginalBytes, totalSavedBytes, OptimizePiece(variant, files[i], digest).value);
    }
  }

  lemma ResultsStep(variant: Variant, files: seq<PieceFile>, i: nat, digest: seq<byte> -> string)
    requires forall k :: 0 <= k < |files| ==> ValidFile(files[k])
    requires i < |files|
    ensures OptimizePiece(variant, files[i], digest).None? ==>
              Results(variant, files[..i + 1], digest) == Results(variant, files[..i], digest)
    ensures OptimizePiece(variant, files[i], digest).Some? ==>
              Results(variant, files[..i + 1], digest) ==
              Results(variant, files[..i], digest) + [OptimizePiece(variant, files[i], digest).value]
  {
    assert files[..i + 1][..i] == files[..i];
  }

  lemma AccumulateStep(results: seq<PieceResult>, saved: map<string, Image>,
                       totalOriginalBytes: int, totalSavedBytes: int, r: PieceResult)
    requires Accumulated(results, saved, totalOriginalBytes, totalSavedBytes)
    ensures Accumulated(results + [r], saved[CroppedFilename(r.pieceId) := r.Cropped()],
                        totalOriginalBytes + r.originalWidth * r.originalHeight * BYTES_PER_PIXEL,
                        totalSavedBytes + r.memorySavedBytes)
  {
    assert (results + [r])[..|results|] == results;
  }

  /** What optimize_piece promises about one result of the given script. */
  ghost predicate ResultFact(variant: Variant, r: PieceResult) {
    WellAccounted(r) && SizeConsistent(r) &&
    (r.PaddedResult? <==> variant == Padded) &&
    (r.FixedResult? <==> variant == Fixed) &&
    (r.ExactResult? <==> variant == NoPadding)
  }

  lemma PieceFact(variant: Variant, f: PieceFile, digest: seq<byte> -> string)
    requires ValidFile(f) && OptimizePiece(variant, f, digest).Some?
    ensures ResultFact(variant, OptimizePiece(variant, f, digest).value)
  {
    PieceResultFacts(variant, f, digest);
  }

  /** Every result the loop collects satisfies what optimize_piece promises. */
  lemma {:induction false} ResultsFacts(variant: Variant, files: seq<PieceFile>, digest: seq<byte> -> string)
    requires forall i :: 0 <= i < |files| ==> ValidFile(files[i])
    ensures forall j :: 0 <= j < |Results(variant, files, digest)| ==> ResultFact(variant, Results(variant, files, digest)[j])
    decreases |files|
  {
    if files != [] {
      var init := files[..|files| - 1];
      ResultsFacts(variant, init, digest);
      var rest := Results(variant, init, digest);
      assert forall j :: 0 <= j < |rest| ==> ResultFact(variant, rest[j]);
      var f := files[|files| - 1];
      var o := OptimizePiece(variant, f, digest);
      if o.Some? {
        PieceFact(variant, f, digest);
        FactsAppend(variant, rest, o.value);
      }
    }
  }

  lemma FactsAppend(variant: Variant, rest: seq<PieceResult>, r: PieceResult)
    requires forall j :: 0 <= j < |rest| ==> ResultFact(variant, rest[j])
    requires ResultFact(variant, r)
    ensures forall j :: 0 <= j < |rest + [r]| ==> ResultFact(variant, (rest + [r])[j])
  {
  }

  /** The number of files whose image has content. */
  function CountContent(files: seq<PieceFile>): nat
    requires forall i :: 0 <= i < |files| ==> ValidFile(files[i])
    decreases |files|
  {
    if files == [] then 0
    else CountContent(files[..|files| - 1]) + (if HasContent(files[|files| - 1]) then 1 else 0)
  }

  /**
   * The loop keeps one result per file with content and nothing for the
   * others, so total_pieces counts exactly the non-transparent pieces.
   */
  lemma {:induction false} ResultsCountContent(variant: Variant, files: seq<PieceFile>, digest: seq<byte> -> string)
    requires forall i :: 0 <= i < |files| ==> ValidFile(files[i])
    ensures |Results(variant, files, digest)| == CountContent(files)
    ensures CountContent(files) == 0 <==> forall i :: 0 <= i < |files| ==> !HasContent(files[i])
    decreases |files|
  {
    if files != [] {
      var init := files[..|files| - 1];
      ResultsCountContent(variant, init, digest);
      PieceSkippedIff(variant, files[|files| - 1], digest);
      if CountContent(files) == 0 {
        forall i | 0 <= i < |files|
          ensures !HasContent(files[i])
        {
          if i < |files| - 1 {
            assert files[i] == init[i];
          }
        }
      } else {
        assert HasContent(files[|files| - 1]) || exists i :: 0 <= i < |init| && HasContent(init[i]);
      }
    }
  }

  /** A piece that is skipped adds nothing to the results, the totals or the saved files. */
  lemma SkippedPieceAddsNothing(variant: Variant, files: seq<PieceFile>, f: PieceFile, digest: seq<byte> -> string)
    requires forall i :: 0 <= i < |files| ==> ValidFile(files[i])
    requires ValidFile(f) && !HasContent(f)
    ensures Results(variant, files + [f], digest) == Results(variant, files, digest)
  {
    PieceSkippedIff(variant, f, digest);
    assert (files + [f])[..|files|] == files;
  }

  /**
   * For a result whose crop has its recorded size, the builder writes the
   * entry exactly when the canvas converts, and raises on the canvas otherwise.
   */
  lemma EntryOk(r: PieceResult, canvas: CanvasInfo)
    requires SizeConsistent(r)
    ensures PieceEntry(r, canvas).Ok? <==> UsableCanvas(canvas)
    ensures PieceEntry(r, canvas).Err? ==> PieceEntry(r, canvas).error == CanvasUnusable
    ensures PieceEntry(r, canvas).Ok? ==>
              PieceEntry(r, canvas).value.croppedFilename == CroppedFilename(r.pieceId) &&
              PieceEntry(r, canvas).value.canvasSize == CanvasSizeOf(canvas).value
  {
  }

  /**
   * For the fixed and no-padding scripts, a recorded entry states the saved
   * crop's own width and height.
   */
  ghost predicate RecordsCropSize(r: PieceResult, canvas: CanvasInfo) {
    PieceEntry(r, canvas).Ok? &&
    PieceEntry(r, canvas).value.bounds.width == r.Cropped().width &&
    PieceEntry(r, canvas).value.bounds.height == r.Cropped().height
  }

  /**
   * When every entry can be written and states its crop's size, the builder
   * succeeds, and every piece of the metadata names a saved file whose image
   * has exactly the recorded width and height; the saved files are exactly the
   * recorded ones.
   */
  lemma {:induction false} PiecesMatchSavedFiles(results: seq<PieceResult>, canvas: CanvasInfo)
    requires forall j :: 0 <= j < |results| ==> RecordsCropSize(results[j], canvas)
    ensures PiecesMetadata(results, canvas).Ok?
    ensures var m := PiecesMetadata(results, canvas).value;
            var saved := SavedFiles(results);
            (forall id :: id in m ==>
               m[id].croppedFilename == CroppedFilename(id) && CroppedFilename(id) in saved &&
               saved[CroppedFilename(id)].width == m[id].bounds.width &&
               saved[CroppedFilename(id)].height == m[id].bounds.height) &&
            (forall name :: name in saved ==> exists id :: id in m && name == CroppedFilename(id))
    decreases |results|
  {
    if results != [] {
      var init := results[..|results| - 1];
      var r := results[|results| - 1];
      assert forall j :: 0 <= j < |init| ==> init[j] == results[j];
      PiecesMatchSavedFiles(init, canvas);
      var m0 := PiecesMetadata(init, canvas).value;
      var saved0 := SavedFiles(init);
      var rec := PieceEntry(r, canvas).value;
      var m := PiecesMetadata(results, canvas).value;
      var saved := SavedFiles(results);
      assert m == m0[r.pieceId := rec];
      assert saved == saved0[CroppedFilename(r.pieceId) := r.Cropped()];
      EntryFilename(r, canvas);
      forall id | id in m
        ensures m[id].croppedFilename == CroppedFilename(id) && CroppedFilename(id) in saved &&
                saved[CroppedFilename(id)].width == m[id].bounds.width &&
                saved[CroppedFilename(id)].height == m[id].bounds.height
      {
        if id != r.pieceId {
          if CroppedFilename(id) == CroppedFilename(r.pieceId) {
            CroppedFilenameInjective(id, r.pieceId);
          }
        }
      }
      forall name | name in saved
        ensures exists id :: id in m && name == CroppedFilename(id)
      {
        if name != CroppedFilename(r.pieceId) {
          var id :| id in m0 && name == CroppedFilename(id);
          assert id in m;
        } else {
          assert r.pieceId in m;
        }
      }
    }
  }

  lemma EntryFilename(r: PieceResult, canvas: CanvasInfo)
    requires PieceEntry(r, canvas).Ok?
    ensures PieceEntry(r, canvas).value.croppedFilename == CroppedFilename(r.pieceId)
  {
  }

  /** For the fixed and no-padding scripts every collected result records its crop's size. */
  lemma ResultsRecordCropSize(variant: Variant, files: seq<PieceFile>, digest: seq<byte> -> string, canvas: CanvasInfo)
    requires forall i :: 0 <= i < |files| ==> ValidFile(files[i])
    requires UsableCanvas(canvas)
    requires variant != Padded
    ensures forall j :: 0 <= j < |Results(variant, files, digest)| ==>
              RecordsCropSize(Results(variant, files, digest)[j], canvas)
  {
    ResultsFacts(variant, files, digest);
  }

  /**
   * Without mismatches the pieces loop raises only on the canvas: it finishes
   * exactly when there is no result or the canvas converts.
   */
  lemma {:induction false} MetadataRaisesOnlyOnCanvas(results: seq<PieceResult>, canvas: CanvasInfo)
    requires forall j :: 0 <= j < |results| ==> SizeConsistent(results[j])
    ensures PiecesMetadata(results, canvas).Ok? <==> results == [] || UsableCanvas(canvas)
    ensures PiecesMetadata(results, canvas).Err? ==> PiecesMetadata(results, canvas).error == CanvasUnusable
    decreases |results|
  {
    if results != [] {
      var init := results[..|results| - 1];
      assert forall j :: 0 <= j < |init| ==> init[j] == results[j];
      MetadataRaisesOnlyOnCanvas(init, canvas);
      EntryOk(results[|results| - 1], canvas);
    }
  }

  /** The whole document is written exactly when the canvas converts, whatever the results. */
  lemma MetadataOkIff(results: seq<PieceResult>, canvas: CanvasInfo, totalOriginalBytes: int, totalSavedBytes: int)
    requires forall j :: 0 <= j < |results| ==> SizeConsistent(results[j])
    ensures Metadata(results, canvas, totalOriginalBytes, totalSavedBytes).Ok? <==> UsableCanvas(canvas)
    ensures Metadata(results, canvas, totalOriginalBytes, totalSavedBytes).Err? ==>
              Metadata(results, canvas, totalOriginalBytes, totalSavedBytes).error == CanvasUnusable
    ensures Metadata(results, canvas, totalOriginalBytes, totalSavedBytes).Ok? ==>
              Metadata(results, canvas, totalOriginalBytes, totalSavedBytes).value.canvasSize == CanvasSizeOf(canvas).value
  {
    MetadataRaisesOnlyOnCanvas(results, canvas);
  }

  /** Some piece file of the directory has a non-transparent pixel. */
  predicate SomeContent(source: GridSource)
    requires ValidSource(source)
  {
    source.pieces.Some? && exists i :: 0 <= i < |source.pieces.value| && HasContent(source.pieces.value[i])
  }

  /**
   * optimize_grid_size raises on the canvas: some piece has content, so the
   * metadata is built, and the layout's canvas does not convert.
   */
  predicate RaisesOnCanvas(source: GridSource)
    requires ValidSource(source)
  {
    SomeContent(source) && !UsableLayout(source.layout)
  }

  /**
   * The outcome of optimize_grid_size: False when the pieces directory is
   * missing or no piece has content; otherwise True when the layout's canvas
   * converts, and the exception of int(canvas_info[...]) when it does not.
   * The no-padding dimension check never aborts the run.
   */
  lemma GridOutcomeCases(variant: Variant, source: GridSource, digest: seq<byte> -> string)
    requires ValidSource(source)
    ensures GridSpec(variant, source, digest).PiecesMissing? <==> source.pieces.None?
    ensures GridSpec(variant, source, digest).Optimized? <==> SomeContent(source) && UsableLayout(source.layout)
    ensures GridSpec(variant, source, digest).Aborted? <==> RaisesOnCanvas(source)
    ensures GridSpec(variant, source, digest).Aborted? ==> GridSpec(variant, source, digest).error == CanvasUnusable
  {
    if source.pieces.Some? {
      var files := source.pieces.value;
      var results := Results(variant, files, digest);
      ResultsCountContent(variant, files, digest);
      ResultsFacts(variant, files, digest);
      MetadataOkIff(results, LoadCanvasInfo(source.layout), TotalOriginalBytes(results), TotalSavedBytes(results));
    }
  }

  /**
   * Drawing `c` onto a transparent canvas of the source's size at (left, top)
   * gives back the source's alpha everywhere and its exact pixels wherever it
   * has content: what a consumer of the metadata does with a piece.
   */
  ghost predicate RestoresAt(img: Image, c: Image, left: int, top: int)
    requires WellFormed(img) && WellFormed(c)
  {
    (forall x, y :: 0 <= x < img.width && 0 <= y < img.height ==>
       At(Paste(img.width, img.height, c, left, top), x, y).a == At(img, x, y).a) &&
    (forall x, y :: 0 <= x < img.width && 0 <= y < img.height && IsContent(img, x, y) ==>
       At(Paste(img.width, img.height, c, left, top), x, y) == At(img, x, y))
  }

  /**
   * For the fixed and no-padding scripts, the written entry positions the
   * saved crop correctly: it has the crop's size and pasting the crop at the
   * recorded (left, top) restores the piece.
   */
  lemma RecordRestoresPiece(variant: Variant, f: PieceFile, digest: seq<byte> -> string, canvas: CanvasInfo)
    requires UsableCanvas(canvas)
    requires ValidFile(f) && variant != Padded && OptimizePiece(variant, f, digest).Some?
    ensures PieceEntry(OptimizePiece(variant, f, digest).value, canvas).Ok?
    ensures RecordsCropSize(OptimizePiece(variant, f, digest).value, canvas)
    ensures WellFormed(OptimizePiece(variant, f, digest).value.Cropped())
    ensures RestoresAt(f.image.value, OptimizePiece(variant, f, digest).value.Cropped(),
                       PieceEntry(OptimizePiece(variant, f, digest).value, canvas).value.bounds.left,
                       PieceEntry(OptimizePiece(variant, f, digest).value, canvas).value.bounds.top)
  {
    if variant == Fixed {
      FixedRecordRestores(f, digest, canvas);
    } else {
      ExactRecordRestores(f, digest, canvas);
    }
  }

  lemma FixedRecordRestores(f: PieceFile, digest: seq<byte> -> string, canvas: CanvasInfo)
    requires UsableCanvas(canvas)
    requires ValidFile(f) && OptimizePiece(Fixed, f, digest).Some?
    ensures PieceEntry(OptimizePiece(Fixed, f, digest).value, canvas).Ok?
    ensures RecordsCropSize(OptimizePiece(Fixed, f, digest).value, canvas)
    ensures WellFormed(OptimizePiece(Fixed, f, digest).value.Cropped())
    ensures RestoresAt(f.image.value, OptimizePiece(Fixed, f, digest).value.Cropped(),
                       PieceEntry(OptimizePiece(Fixed, f, digest).value, canvas).value.bounds.left,
                       PieceEntry(OptimizePiece(Fixed, f, digest).value, canvas).value.bounds.top)
  {
    FixedShape(f, digest);
    var img := f.image.value;
    FixedEntryRestores(img, FindContentBounds(img).value, OptimizePiece(Fixed, f, digest).value, canvas);
  }

  /** The fixed script's result carries create_optimized_crop's info for the tight content box. */
  lemma FixedShape(f: PieceFile, digest: seq<byte> -> string)
    requires ValidFile(f) && OptimizePiece(Fixed, f, digest).Some?
    ensures var img := f.image.value;
            FindContentBounds(img).Some? && Tight(img, FindContentBounds(img).value) &&
            OptimizePiece(Fixed, f, digest).value.FixedResult? &&
            OptimizePiece(Fixed, f, digest).value.croppedInfo ==
              FixedCrop.CreateOptimizedCrop(img, FindContentBounds(img).value, PADDING)
  {
    ContentBoundsCorrect(f.image.value);
  }

  /** The entry written for a fixed-script result records its crop's size and restores the piece. */
  lemma FixedEntryRestores(img: Image, b: BoundingBox, r: PieceResult, canvas: CanvasInfo)
    requires UsableCanvas(canvas)
    requires WellFormed(img) && Tight(img, b)
    requires r.FixedResult? && r.croppedInfo == FixedCrop.CreateOptimizedCrop(img, b, PADDING)
    ensures PieceEntry(r, canvas).Ok? && RecordsCropSize(r, canvas) && WellFormed(r.Cropped())
    ensures RestoresAt(img, r.Cropped(), PieceEntry(r, canvas).value.bounds.left, PieceEntry(r, canvas).value.bounds.top)
  {
    FixedCrop.RecordedBoundsMatchCrop(img, b, PADDING);
    var rec := FixedCrop.RecordedBounds(r.croppedInfo);
    PlacedCropRestores(img, r.croppedInfo.croppedImage, rec.left, rec.top, b);
  }

  lemma ExactRecordRestores(f: PieceFile, digest: seq<byte> -> string, canvas: CanvasInfo)
    requires UsableCanvas(canvas)
    requires ValidFile(f) && OptimizePiece(NoPadding, f, digest).Some?
    ensures PieceEntry(OptimizePiece(NoPadding, f, digest).value, canvas).Ok?
    ensures RecordsCropSize(OptimizePiece(NoPadding, f, digest).value, canvas)
    ensures WellFormed(OptimizePiece(NoPadding, f, digest).value.Cropped())
    ensures RestoresAt(f.image.value, OptimizePiece(NoPadding, f, digest).value.Cropped(),
                       PieceEntry(OptimizePiece(NoPadding, f, digest).value, canvas).value.bounds.left,
                       PieceEntry(OptimizePiece(NoPadding, f, digest).value, canvas).value.bounds.top)
  {
    ExactShape(f, digest);
    ExactEntryRestores(f.image.value, OptimizePiece(NoPadding, f, digest).value, canvas);
  }

  /** The no-padding script's result is the exact crop of the tight content box, cut at its corner. */
  lemma ExactShape(f: PieceFile, digest: seq<byte> -> string)
    requires ValidFile(f) && OptimizePiece(NoPadding, f, digest).Some?
    ensures var img := f.image.value;
            var r := OptimizePiece(NoPadding, f, digest).value;
            r.ExactResult? && Tight(img, r.contentBounds) &&
            IsCropAt(img, r.croppedImage, r.contentBounds.left, r.contentBounds.top) &&
            r.croppedImage.width == InclusiveWidth(r.contentBounds) &&
            r.croppedImage.height == InclusiveHeight(r.contentBounds)
  {
    var img := f.image.value;
    ContentBoundsCorrect(img);
    ExactCrop.ExactCropSucceeds(img, FindContentBounds(img).value);
  }

  /** The entry written for a no-padding result records its crop's size and restores the piece. */
  lemma ExactEntryRestores(img: Image, r: PieceResult, canvas: CanvasInfo)
    requires UsableCanvas(canvas)
    requires WellFormed(img) && r.ExactResult? && Tight(img, r.contentBounds)
    requires IsCropAt(img, r.croppedImage, r.contentBounds.left, r.contentBounds.top)
    requires r.croppedImage.width == InclusiveWidth(r.contentBounds)
    requires r.croppedImage.height == InclusiveHeight(r.contentBounds)
    ensures PieceEntry(r, canvas).Ok? && RecordsCropSize(r, canvas) && WellFormed(r.Cropped())
    ensures RestoresAt(img, r.Cropped(), PieceEntry(r, canvas).value.bounds.left, PieceEntry(r, canvas).value.bounds.top)
  {
    var b := r.contentBounds;
    ExactEntry(r, canvas);
    PlacedCropRestores(img, r.croppedImage, b.left, b.top, b);
  }

  /** The entry of a no-padding result whose crop has the content's size. */
  lemma ExactEntry(r: PieceResult, canvas: CanvasInfo)
    requires UsableCanvas(canvas)
    requires r.ExactResult?
    requires r.croppedImage.width == InclusiveWidth(r.contentBounds)
    requires r.croppedImage.height == InclusiveHeight(r.contentBounds)
    ensures PieceEntry(r, canvas) ==
            Ok(PieceRecord(ExactCrop.RecordedBounds(r.contentBounds), CanvasSizeOf(canvas).value,
                           r.contentHash, CroppedFilename(r.pieceId)))
  {
  }

  /** A crop cut at (left, top) that encloses the tight box restores the image when pasted back there. */
  lemma PlacedCropRestores(img: Image, c: Image, left: int, top: int, b: BoundingBox)
    requires WellFormed(img) && WellFormed(c) && Tight(img, b)
    requires IsCropAt(img, c, left, top) && Encloses(c, left, top, b)
    ensures RestoresAt(img, c, left, top)
  {
    PasteRestoresContent(img, c, left, top);
  }

  /** The bounds fixture saved as piece_0.png. */
  function TestPiece(): (f: PieceFile)
    ensures ValidFile(f) && HasContent(f)
  {
    DetectsTestRectangle();
    ContentBoundsCorrect(TestImage());
    PieceFile("piece_0", Some(TestImage()))
  }

  /**
   * The original script's entry for the fixture does not position its saved
   * crop: it records width 100 for a 105-pixel crop, and pasting the crop at
   * the recorded (50, 30) leaves that corner of the red rectangle transparent.
   */
  lemma PaddedRecordMisplacesPiece(digest: seq<byte> -> string, canvas: CanvasInfo)
    requires UsableCanvas(canvas)
    ensures OptimizePiece(Padded, TestPiece(), digest).Some?
    ensures PieceEntry(OptimizePiece(Padded, TestPiece(), digest).value, canvas).Ok?
    ensures var r := OptimizePiece(Padded, TestPiece(), digest).value;
            var rec := PieceEntry(r, canvas).value;
            WellFormed(r.Cropped()) &&
            rec.bounds.left == 50 && rec.bounds.top == 30 &&
            rec.bounds.width == 100 && rec.bounds.height == 90 &&
            r.Cropped().width == 105 && r.Cropped().height == 95 &&
            IsContent(TestImage(), 50, 30) &&
            At(Paste(200, 200, r.Cropped(), 50, 30), 50, 30).a == 0 &&
            !RestoresAt(TestImage(), r.Cropped(), rec.bounds.left, rec.bounds.top)
  {
    var b := BoundingBox(50, 30, 150, 120);
    PaddedFixtureResult(digest, canvas);
    var c := PaddedCrop.CropImageToBounds(TestImage(), b, PADDING);
    PaddedCrop.TestFixtureCropSize();
    PaddedFixtureCorner(c);
  }

  /** What the original script produces for the fixture: the padded crop and the unpadded record. */
  lemma PaddedFixtureResult(digest: seq<byte> -> string, canvas: CanvasInfo)
    requires UsableCanvas(canvas)
    ensures OptimizePiece(Padded, TestPiece(), digest).Some?
    ensures var b := BoundingBox(50, 30, 150, 120);
            var r := OptimizePiece(Padded, TestPiece(), digest).value;
            r.Cropped() == PaddedCrop.CropImageToBounds(TestImage(), b, PADDING) &&
            PieceEntry(r, canvas).Ok? &&
            PieceEntry(r, canvas).value.bounds == PaddedCrop.RecordedBounds(b)
  {
    DetectsTestRectangle();
    PaddedResultShape(TestPiece(), BoundingBox(50, 30, 150, 120), digest, canvas);
  }

  /** The original script crops the padded box and records the unpadded content box. */
  lemma PaddedResultShape(f: PieceFile, b: BoundingBox, digest: seq<byte> -> string, canvas: CanvasInfo)
    requires ValidFile(f) && f.image.Some? && FindContentBounds(f.image.value) == Some(b)
    requires UsableCanvas(canvas)
    ensures OptimizePiece(Padded, f, digest).Some?
    ensures Inside(f.image.value, b)
    ensures OptimizePiece(Padded, f, digest).value.Cropped() == PaddedCrop.CropImageToBounds(f.image.value, b, PADDING)
    ensures PieceEntry(OptimizePiece(Padded, f, digest).value, canvas).Ok?
    ensures PieceEntry(OptimizePiece(Padded, f, digest).value, canvas).value.bounds == PaddedCrop.RecordedBounds(b)
  {
    ContentBoundsCorrect(f.image.value);
  }

  /** The padded crop's corner is transparent, so pasting it at (50, 30) blanks a red pixel. */
  lemma PaddedFixtureCorner(c: Image)
    requires c == PaddedCrop.CropImageToBounds(TestImage(), BoundingBox(50, 30, 150, 120), PADDING)
    ensures WellFormed(c) && IsContent(TestImage(), 50, 30)
    ensures At(Paste(200, 200, c, 50, 30), 50, 30).a == 0
    ensures !RestoresAt(TestImage(), c, 50, 30)
  {
    var img := TestImage();
    assert At(c, 0, 0) == At(img, 48, 28);
    PasteAt(200, 200, c, 50, 30, 50, 30);
    assert At(img, 50, 30) == Pixel(255, 0, 0, 255);
  }

  /** The totals the loop accumulates account for every byte. */
  lemma {:induction false} TotalsAccount(results: seq<PieceResult>)
    requires forall j :: 0 <= j < |results| ==> WellAccounted(results[j])
    ensures TotalSavedBytes(results) == TotalOriginalBytes(results) - TotalCroppedBytes(results)
    ensures 0 <= TotalCroppedBytes(results) && 0 <= TotalSavedBytes(results)
    ensures |results| > 0 ==> TotalOriginalBytes(results) > 0
    decreases |results|
  {
    if results != [] {
      var init := results[..|results| - 1];
      var r := results[|results| - 1];
      assert forall j :: 0 <= j < |init| ==> init[j] == results[j];
      TotalsAccount(init);
      assert WellAccounted(r);
      var c := r.Cropped();
      MulMonotone(0, 0, c.width, c.height);
      MulMonotone(1, 1, r.originalWidth, r.originalHeight);
      if init != [] {
        assert TotalOriginalBytes(init) > 0;
      }
    }
  }

  /** A ratio of two amounts the larger of which is positive lies in [0, 1]. */
  lemma RatioInUnitInterval(saved: int, original: int)
    requires 0 <= saved <= original && 0 < original
    ensures 0.0 <= saved as real / original as real <= 1.0
  {
    var q := saved as real / original as real;
    assert q * original as real == saved as real;
  }

  /**
   * The statistics written for an optimized grid: one piece per file with
   * content, the optimized total is the raw size of the saved crops, the
   * saving is between 0 and the original total, and the percentage lies in
   * [0, 100].
   */
  lemma GridStatistics(variant: Variant, source: GridSource, digest: seq<byte> -> string)
    requires ValidSource(source) && GridSpec(variant, source, digest).Optimized?
    ensures var files := source.pieces.value;
            var st := GridSpec(variant, source, digest).metadata.statistics;
            st.totalPieces == CountContent(files) &&
            st.originalTotalBytes == TotalOriginalBytes(Results(variant, files, digest)) &&
            st.optimizedTotalBytes == TotalCroppedBytes(Results(variant, files, digest)) &&
            st.bytesSaved == st.originalTotalBytes - st.optimizedTotalBytes &&
            0 <= st.bytesSaved <= st.originalTotalBytes && 0 < st.originalTotalBytes &&
            0.0 <= st.memoryReductionPercent <= 100.0
  {
    var files := source.pieces.value;
    var results := Results(variant, files, digest);
    ResultsCountContent(variant, files, digest);
    ResultsFacts(variant, files, digest);
    TotalsAccount(results);
    RatioInUnitInterval(TotalSavedBytes(results), TotalOriginalBytes(results));
  }

  /**
   * For the fixed and no-padding scripts, an optimized grid's metadata names
   * exactly the files this run wrote, and each entry states the width and
   * height of the file it names.
   */
  lemma GridMetadataMatchesFiles(variant: Variant, source: GridSource, digest: seq<byte> -> string)
    requires ValidSource(source) && variant != Padded && GridSpec(variant, source, digest).Optimized?
    ensures var g := GridSpec(variant, source, digest);
            var m := g.metadata.pieces;
            (forall id :: id in m ==>
               m[id].croppedFilename == CroppedFilename(id) && CroppedFilename(id) in g.saved &&
               g.saved[CroppedFilename(id)].width == m[id].bounds.width &&
               g.saved[CroppedFilename(id)].height == m[id].bounds.height) &&
            (forall name :: name in g.saved ==> exists id :: id in m && name == CroppedFilename(id))
  {
    var files := source.pieces.value;
    var canvas := LoadCanvasInfo(source.layout);
    ResultsRecordCropSize(variant, files, digest, canvas);
    PiecesMatchSavedFiles(Results(variant, files, digest), canvas);
  }
}
