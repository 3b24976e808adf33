/**
 * The crop policy of optimize_puzzle_assets_no_padding.py: crop exactly to
 * the inclusive content box, check the size, and record the content box with
 * its inclusive width and height.
 */
module ExactCrop {
  import opened Common
  import opened Raster
  import opened Bounds
  import FixedCrop

  /** The ValueError "Crop size mismatch!" */
  datatype CropError = CropSizeMismatch(expectedWidth: int, expectedHeight: int, actualWidth: int, actualHeight: int)

  /** crop_to_exact_content: crop box (left, top, right + 1, bottom + 1), then the size check. */
  function CropToExactContent(img: Image, b: BoundingBox): Result<Image, CropError>
    requires WellFormed(img) && Inside(img, b)
  {
    var cropped := Crop(img, CropBox(b.left, b.top, b.right + 1, b.bottom + 1));
    var expectedWidth := b.right - b.left + 1;
    var expectedHeight := b.bottom - b.top + 1;
    if cropped.width != expectedWidth || cropped.height != expectedHeight
    then Err(CropSizeMismatch(expectedWidth, expectedHeight, cropped.width, cropped.height))
    else Ok(cropped)
  }

  /**
   * The size check never fails for a box inside the image, and the crop is
   * exactly the content box: the source's part at the box's top-left, of the
   * box's inclusive width and height.
   */
  lemma ExactCropSucceeds(img: Image, b: BoundingBox)
    requires WellFormed(img) && Inside(img, b)
    ensures CropToExactContent(img, b).Ok?
    ensures var c := CropToExactContent(img, b).value;
            IsCropAt(img, c, b.left, b.top) &&
            c.width == InclusiveWidth(b) && c.height == InclusiveHeight(b) &&
            Encloses(c, b.left, b.top, b)
  {
    CropIsCropAt(img, CropBox(b.left, b.top, b.right + 1, b.bottom + 1));
  }

  /** The bounds object _generate_optimization_metadata writes: the content box with inclusive width and height. */
  function RecordedBounds(b: BoundingBox): BoundsRecord {
    BoundsRecord(b.left, b.top, b.right, b.bottom, InclusiveWidth(b), InclusiveHeight(b))
  }

  /** With padding 0 the fixed script crops, positions and records exactly as this one does. */
  lemma AgreesWithFixedAtPaddingZero(img: Image, b: BoundingBox)
    requires WellFormed(img) && Inside(img, b)
    ensures var info := FixedCrop.CreateOptimizedCrop(img, b, 0);
            CropToExactContent(img, b) == Ok(info.croppedImage) &&
            info.canvasPositionLeft == b.left && info.canvasPositionTop == b.top &&
            FixedCrop.RecordedBounds(info) == RecordedBounds(b)
  {
  }
}
