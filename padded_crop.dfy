/**
 * The crop policy of optimize_puzzle_assets.py: pad the content box, clamp the
 * padded box to the inclusive pixel range, crop with +1 on right and bottom;
 * the metadata then records the unpadded content box with width right - left.
 */
module PaddedCrop {
  import opened Common
  import opened Raster
  import opened Bounds

  /** padded_left, padded_top, padded_right, padded_bottom: clamped to [0, w-1] x [0, h-1]. */
  function PaddedBounds(img: Image, b: BoundingBox, padding: nat): BoundingBox {
    BoundingBox(Max(0, b.left - padding), Max(0, b.top - padding),
                Min(img.width - 1, b.right + padding), Min(img.height - 1, b.bottom + padding))
  }

  /**
   * crop_image_to_bounds. The crop is the part of the source at the padded
   * box's top-left, encloses the content box, and is the content's inclusive
   * size plus the padding actually available on each side.
   */
  function CropImageToBounds(img: Image, b: BoundingBox, padding: nat): (c: Image)
    requires WellFormed(img) && Inside(img, b)
    ensures IsCropAt(img, c, PaddedBounds(img, b, padding).left, PaddedBounds(img, b, padding).top)
    ensures Encloses(c, PaddedBounds(img, b, padding).left, PaddedBounds(img, b, padding).top, b)
    ensures c.width == InclusiveWidth(b) + Min(padding, b.left) + Min(padding, img.width - 1 - b.right)
    ensures c.height == InclusiveHeight(b) + Min(padding, b.top) + Min(padding, img.height - 1 - b.bottom)
    ensures c.width <= img.width && c.height <= img.height
  {
    var p := PaddedBounds(img, b, padding);
    CropIsCropAt(img, CropBox(p.left, p.top, p.right + 1, p.bottom + 1));
    Crop(img, CropBox(p.left, p.top, p.right + 1, p.bottom + 1))
  }

  /** The bounds object _generate_optimization_metadata writes: the content box with its legacy width. */
  function RecordedBounds(b: BoundingBox): BoundsRecord {
    BoundsRecord(b.left, b.top, b.right, b.bottom, LegacyWidth(b), LegacyHeight(b))
  }

  /**
   * The recorded bounds never describe the saved crop: the recorded width is
   * short of the cropped width by one plus the padding applied on both sides
   * (1 + 2 * padding when nothing is clamped), and the recorded left edge is
   * right of the crop's true left edge by the padding applied there.
   */
  lemma RecordedBoundsMismatch(img: Image, b: BoundingBox, padding: nat)
    requires WellFormed(img) && Inside(img, b)
    ensures var c := CropImageToBounds(img, b, padding);
            var rec := RecordedBounds(b);
            rec.width == c.width - 1 - Min(padding, b.left) - Min(padding, img.width - 1 - b.right) &&
            rec.height == c.height - 1 - Min(padding, b.top) - Min(padding, img.height - 1 - b.bottom) &&
            rec.width < c.width && rec.height < c.height &&
            rec.left == PaddedBounds(img, b, padding).left + Min(padding, b.left) &&
            rec.top == PaddedBounds(img, b, padding).top + Min(padding, b.top)
    ensures padding <= b.left && b.right + padding < img.width ==>
              RecordedBounds(b).width == CropImageToBounds(img, b, padding).width - 1 - 2 * padding
  {
  }

  /**
   * The bounds fixture with padding 2: the crop is 105 x 95, although
   * legacy width + 4 is 104 and the recorded width is 100.
   */
  lemma TestFixtureCropSize()
    ensures var b := BoundingBox(50, 30, 150, 120);
            var c := CropImageToBounds(TestImage(), b, 2);
            c.width == 105 && c.height == 95 &&
            LegacyWidth(b) + 4 == 104 && RecordedBounds(b).width == 100
  {
  }
}
