/**
 * The crop policy of optimize_puzzle_assets_fixed.py: an exclusive crop
 * rectangle clamped to the image, with the canvas position and the metadata
 * both taken from the rectangle actually passed to crop.
 */
module FixedCrop {
  import opened Common
  import opened Raster
  import opened Bounds
  import PaddedCrop

  /** CroppedImageInfo */
  datatype CroppedImageInfo = CroppedImageInfo(
    croppedImage: Image,
    originalContentBounds: BoundingBox,
    actualCropBounds: BoundingBox,
    canvasPositionLeft: int,
    canvasPositionTop: int)

  /** crop_left, crop_top, crop_right, crop_bottom: right and bottom exclusive, clamped to the image size. */
  function CropRectangle(img: Image, b: BoundingBox, padding: nat): CropBox {
    CropBox(Max(0, b.left - padding), Max(0, b.top - padding),
            Min(img.width, b.right + padding + 1), Min(img.height, b.bottom + padding + 1))
  }

  /** The crop rectangle lies in the image and strictly encloses the content box. */
  lemma CropRectangleBounds(img: Image, b: BoundingBox, padding: nat)
    requires Inside(img, b)
    ensures var r := CropRectangle(img, b, padding);
            0 <= r.left <= b.left && b.right < r.right <= img.width &&
            0 <= r.top <= b.top && b.bottom < r.bottom <= img.height
  {
  }

  /**
   * create_optimized_crop. The canvas position is the top-left of the
   * rectangle passed to crop, the crop is the source's part at that position,
   * and actual_crop_bounds is that rectangle with right and bottom made
   * inclusive, so its legacy width is one less than the cropped width.
   */
  function CreateOptimizedCrop(img: Image, b: BoundingBox, padding: nat): (info: CroppedImageInfo)
    requires WellFormed(img) && Inside(img, b)
    ensures var r := CropRectangle(img, b, padding);
            info.canvasPositionLeft == r.left && info.canvasPositionTop == r.top &&
            info.croppedImage.width == r.right - r.left && info.croppedImage.height == r.bottom - r.top
    ensures IsCropAt(img, info.croppedImage, info.canvasPositionLeft, info.canvasPositionTop)
    ensures Encloses(info.croppedImage, info.canvasPositionLeft, info.canvasPositionTop, b)
    ensures info.originalContentBounds == b
    ensures info.actualCropBounds.left == info.canvasPositionLeft
    ensures info.actualCropBounds.top == info.canvasPositionTop
    ensures LegacyWidth(info.actualCropBounds) == info.croppedImage.width - 1
    ensures LegacyHeight(info.actualCropBounds) == info.croppedImage.height - 1
  {
    var r := CropRectangle(img, b, padding);
    CropRectangleBounds(img, b, padding);
    CropIsCropAt(img, r);
    var cropped := Crop(img, r);
    var actual := BoundingBox(r.left, r.top, r.right - 1, r.bottom - 1);
    CroppedImageInfo(cropped, b, actual, r.left, r.top)
  }

  /** The bounds object _generate_optimization_metadata writes from the crop's actual size and position. */
  function RecordedBounds(info: CroppedImageInfo): BoundsRecord {
    var w := info.croppedImage.width;
    var h := info.croppedImage.height;
    BoundsRecord(info.canvasPositionLeft, info.canvasPositionTop,
                 info.canvasPositionLeft + w - 1, info.canvasPositionTop + h - 1, w, h)
  }

  /**
   * The recorded bounds describe the saved crop exactly: its size, its
   * position on the canvas, and inclusive right/bottom equal to those of
   * actual_crop_bounds.
   */
  lemma RecordedBoundsMatchCrop(img: Image, b: BoundingBox, padding: nat)
    requires WellFormed(img) && Inside(img, b)
    ensures var info := CreateOptimizedCrop(img, b, padding);
            var rec := RecordedBounds(info);
            rec.width == info.croppedImage.width && rec.height == info.croppedImage.height &&
            rec.right == rec.left + rec.width - 1 && rec.bottom == rec.top + rec.height - 1 &&
            rec.right == info.actualCropBounds.right && rec.bottom == info.actualCropBounds.bottom &&
            IsCropAt(img, info.croppedImage, rec.left, rec.top) &&
            Encloses(info.croppedImage, rec.left, rec.top, b)
  {
  }

  /**
   * The fix changes the metadata, not the pixels: the exclusive rectangle
   * clamped to the size is the inclusive padded box of the original script
   * plus one, so both scripts save the same crop.
   */
  lemma SameCropAsPadded(img: Image, b: BoundingBox, padding: nat)
    requires WellFormed(img) && Inside(img, b)
    ensures var info := CreateOptimizedCrop(img, b, padding);
            var p := PaddedCrop.PaddedBounds(img, b, padding);
            info.croppedImage == PaddedCrop.CropImageToBounds(img, b, padding) &&
            info.canvasPositionLeft == p.left && info.canvasPositionTop == p.top &&
            info.actualCropBounds == p
  {
    var p := PaddedCrop.PaddedBounds(img, b, padding);
    assert CropRectangle(img, b, padding) == CropBox(p.left, p.top, p.right + 1, p.bottom + 1);
  }
}
