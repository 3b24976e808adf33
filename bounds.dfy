/**
 * find_content_bounds, identical in the three optimizer scripts: the tight
 * inclusive box around the pixels whose alpha is non-zero, computed as numpy
 * does it (per-row and per-column any, then argmax from each end).
 */
module Bounds {
  import opened Common
  import opened Raster

  /** left/top/right/bottom in pixels; find_content_bounds fills them inclusively. */
  datatype BoundingBox = BoundingBox(left: int, top: int, right: int, bottom: int)

  /** BoundingBox.width and .height in optimize_puzzle_assets.py and optimize_puzzle_assets_fixed.py. */
  function LegacyWidth(b: BoundingBox): int { b.right - b.left }

  function LegacyHeight(b: BoundingBox): int { b.bottom - b.top }

  /** BoundingBox.width and .height in optimize_puzzle_assets_no_padding.py. */
  function InclusiveWidth(b: BoundingBox): int { b.right - b.left + 1 }

  function InclusiveHeight(b: BoundingBox): int { b.bottom - b.top + 1 }

  /** The "bounds" object written into optimization_metadata.json. */
  datatype BoundsRecord = BoundsRecord(left: int, top: int, right: int, bottom: int, width: int, height: int)

  /** The invariant of a detected box: non-empty and within the image. */
  predicate Inside(img: Image, b: BoundingBox) {
    0 <= b.left <= b.right < img.width && 0 <= b.top <= b.bottom < img.height
  }

  /**
   * A crop `c` whose top-left corner sits at (left, top) encloses box `b`:
   * every column and row of `b` falls inside the crop.
   */
  predicate Encloses(c: Image, left: int, top: int, b: BoundingBox) {
    left <= b.left && b.right < left + c.width && top <= b.top && b.bottom < top + c.height
  }

  /** numpy's argmax over booleans: the index of the first true entry, 0 when there is none. */
  function ArgMax(s: seq<bool>): (i: nat)
    requires |s| > 0
    ensures i < |s|
    ensures true in s ==> s[i] && forall j :: 0 <= j < i ==> !s[j]
    ensures true !in s ==> i == 0
  {
    if s[0] || true !in s[1..] then 0 else 1 + ArgMax(s[1..])
  }

  /** s[::-1] */
  function Reverse(s: seq<bool>): seq<bool> {
    seq(|s|, i requires 0 <= i < |s| => s[|s| - 1 - i])
  }

  /** len(s) - 1 - argmax(s[::-1]) */
  function LastArgMax(s: seq<bool>): int
    requires |s| > 0
  {
    |s| - 1 - ArgMax(Reverse(s))
  }

  /** Counted from the end, argmax finds the last true entry. */
  lemma LastArgMaxIsLastTrue(s: seq<bool>)
    requires true in s
    ensures 0 <= LastArgMax(s) < |s| && s[LastArgMax(s)]
    ensures forall j :: LastArgMax(s) < j < |s| ==> !s[j]
  {
    var r := Reverse(s);
    var i :| 0 <= i < |s| && s[i];
    assert r[|s| - 1 - i];
    var a := ArgMax(r);
    assert r[a] == s[|s| - 1 - a];
    forall j | LastArgMax(s) < j < |s|
      ensures !s[j]
    {
      assert r[|s| - 1 - j] == s[j];
    }
  }

  predicate RowHasContent(img: Image, y: int)
    requires WellFormed(img) && 0 <= y < img.height
  {
    exists x :: 0 <= x < img.width && IsContent(img, x, y)
  }

  predicate ColHasContent(img: Image, x: int)
    requires WellFormed(img) && 0 <= x < img.width
  {
    exists y :: 0 <= y < img.height && IsContent(img, x, y)
  }

  /** np.any(non_transparent, axis=1) */
  function RowsAny(img: Image): seq<bool>
    requires WellFormed(img)
  {
    seq(img.height, y requires 0 <= y < img.height => RowHasContent(img, y))
  }

  /** np.any(non_transparent, axis=0) */
  function ColsAny(img: Image): seq<bool>
    requires WellFormed(img)
  {
    seq(img.width, x requires 0 <= x < img.width => ColHasContent(img, x))
  }

  /** np.any(non_transparent) */
  predicate AnyContent(img: Image)
    requires WellFormed(img)
  {
    exists x, y :: 0 <= x < img.width && 0 <= y < img.height && IsContent(img, x, y)
  }

  /** find_content_bounds: None for a fully transparent image. */
  function FindContentBounds(img: Image): Option<BoundingBox>
    requires WellFormed(img)
  {
    if !AnyContent(img) then None
    else
      var rows := RowsAny(img);
      var cols := ColsAny(img);
      Some(BoundingBox(ArgMax(cols), ArgMax(rows), LastArgMax(cols), LastArgMax(rows)))
  }

  /**
   * The reference meaning of the detected box: inside the image, covering
   * every content pixel, with content on its first and last row and column.
   */
  ghost predicate Tight(img: Image, b: BoundingBox)
    requires WellFormed(img)
  {
    Inside(img, b) &&
    (forall x, y :: 0 <= x < img.width && 0 <= y < img.height && IsContent(img, x, y) ==>
       b.left <= x <= b.right && b.top <= y <= b.bottom) &&
    RowHasContent(img, b.top) && RowHasContent(img, b.bottom) &&
    ColHasContent(img, b.left) && ColHasContent(img, b.right)
  }

  /** find_content_bounds returns None exactly for fully transparent images, and otherwise a tight box. */
  lemma ContentBoundsCorrect(img: Image)
    requires WellFormed(img)
    ensures FindContentBounds(img).None? <==> !AnyContent(img)
    ensures FindContentBounds(img).Some? ==> Tight(img, FindContentBounds(img).value)
  {
    if AnyContent(img) {
      DetectedEdgesHaveContent(img);
      DetectedBoxCovers(img);
    }
  }

  /** The detected box lies in the image and its first and last row and column hold content. */
  lemma DetectedEdgesHaveContent(img: Image)
    requires WellFormed(img) && AnyContent(img)
    ensures var b := FindContentBounds(img).value;
            Inside(img, b) &&
            RowHasContent(img, b.top) && RowHasContent(img, b.bottom) &&
            ColHasContent(img, b.left) && ColHasContent(img, b.right)
  {
    var rows, cols := RowsAny(img), ColsAny(img);
    var x0, y0 :| 0 <= x0 < img.width && 0 <= y0 < img.height && IsContent(img, x0, y0);
    ContentMarksRowAndColumn(img, x0, y0);
    LastArgMaxIsLastTrue(rows);
    LastArgMaxIsLastTrue(cols);
    var b := FindContentBounds(img).value;
    assert rows[b.top] && rows[b.bottom] && cols[b.left] && cols[b.right];
  }

  /** Every content pixel lies in the detected box. */
  lemma DetectedBoxCovers(img: Image)
    requires WellFormed(img) && AnyContent(img)
    ensures var b := FindContentBounds(img).value;
            forall x, y :: 0 <= x < img.width && 0 <= y < img.height && IsContent(img, x, y) ==>
              b.left <= x <= b.right && b.top <= y <= b.bottom
  {
    var rows, cols := RowsAny(img), ColsAny(img);
    var b := FindContentBounds(img).value;
    forall x, y | 0 <= x < img.width && 0 <= y < img.height && IsContent(img, x, y)
      ensures b.left <= x <= b.right && b.top <= y <= b.bottom
    {
      ContentMarksRowAndColumn(img, x, y);
      LastArgMaxIsLastTrue(rows);
      LastArgMaxIsLastTrue(cols);
    }
  }

  /** A content pixel marks its row and its column as having content. */
  lemma ContentMarksRowAndColumn(img: Image, x: int, y: int)
    requires WellFormed(img) && 0 <= x < img.width && 0 <= y < img.height && IsContent(img, x, y)
    ensures RowsAny(img)[y] && ColsAny(img)[x]
  {
  }

  /** At most one box is tight for a given image. */
  lemma TightUnique(img: Image, b1: BoundingBox, b2: BoundingBox)
    requires WellFormed(img) && Tight(img, b1) && Tight(img, b2)
    ensures b1 == b2
  {
    forall b, c | b in {b1, b2} && c in {b1, b2}
      ensures c.top <= b.top && b.bottom <= c.bottom && c.left <= b.left && b.right <= c.right
    {
      var x1 :| 0 <= x1 < img.width && IsContent(img, x1, b.top);
      var x2 :| 0 <= x2 < img.width && IsContent(img, x2, b.bottom);
      var y1 :| 0 <= y1 < img.height && IsContent(img, b.left, y1);
      var y2 :| 0 <= y2 < img.height && IsContent(img, b.right, y2);
    }
  }

  /** The detected box is the tight box, and the tight box is what is detected. */
  lemma BoundsAreTheTightBox(img: Image, b: BoundingBox)
    requires WellFormed(img)
    ensures FindContentBounds(img) == Some(b) <==> Tight(img, b)
  {
    ContentBoundsCorrect(img);
    if Tight(img, b) {
      var y :| 0 <= y < img.height && IsContent(img, b.left, y);
      assert AnyContent(img);
      TightUnique(img, b, FindContentBounds(img).value);
    }
  }

  /** An image whose content is exactly a filled rectangle is detected as that rectangle. */
  lemma FilledRectangleBounds(img: Image, b: BoundingBox)
    requires WellFormed(img) && Inside(img, b)
    requires forall x, y :: 0 <= x < img.width && 0 <= y < img.height ==>
               (IsContent(img, x, y) <==> b.left <= x <= b.right && b.top <= y <= b.bottom)
    ensures FindContentBounds(img) == Some(b)
  {
    assert IsContent(img, b.left, b.top) && IsContent(img, b.right, b.bottom);
    assert Tight(img, b);
    BoundsAreTheTightBox(img, b);
  }

  /** Image.new('RGBA', (width, height), (0, 0, 0, 0)) */
  function Blank(width: nat, height: nat): (img: Image)
    ensures WellFormed(img)
  {
    Image(width, height, seq(height, _ => seq(width, _ => Transparent)))
  }

  /** A fully transparent image has no content bounds. */
  lemma BlankHasNoBounds(width: nat, height: nat)
    ensures FindContentBounds(Blank(width, height)) == None
  {
  }

  /**
   * The fixture of the bounds test: a 200x200 transparent image on which the
   * rectangle (50, 30, 150, 120) is filled opaque red; PIL's filled rectangle
   * includes both corner pixels.
   */
  function TestImage(): (img: Image)
    ensures WellFormed(img)
  {
    Image(200, 200, seq(200, y =>
      seq(200, x => if 50 <= x <= 150 && 30 <= y <= 120 then Pixel(255, 0, 0, 255) else Transparent)))
  }

  /** The fixture's rectangle is detected exactly, corners included. */
  lemma DetectsTestRectangle()
    ensures FindContentBounds(TestImage()) == Some(BoundingBox(50, 30, 150, 120))
  {
    var img := TestImage();
    forall x, y | 0 <= x < 200 && 0 <= y < 200
      ensures IsContent(img, x, y) <==> 50 <= x <= 150 && 30 <= y <= 120
    {
    }
    FilledRectangleBounds(img, BoundingBox(50, 30, 150, 120));
  }
}
