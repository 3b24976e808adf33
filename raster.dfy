/**
 * RGBA raster images as PIL hands them to the optimizer after convert('RGBA'),
 * PIL's crop by its sub-grid meaning, drawing a piece back onto a canvas, and
 * the raw byte layout that Image.tobytes() produces.
 */
module Raster {

  newtype byte = x: int | 0 <= x < 256

  datatype Pixel = Pixel(r: byte, g: byte, b: byte, a: byte)

  const Transparent := Pixel(0, 0, 0, 0)

  /** rows[y][x] is the pixel in column x of row y. */
  datatype Image = Image(width: nat, height: nat, rows: seq<seq<Pixel>>)

  predicate WellFormed(img: Image) {
    |img.rows| == img.height &&
    forall y :: 0 <= y < |img.rows| ==> |img.rows[y]| == img.width
  }

  function At(img: Image, x: int, y: int): Pixel
    requires WellFormed(img)
    requires 0 <= x < img.width && 0 <= y < img.height
  {
    img.rows[y][x]
  }

  /** A pixel counts as content when its alpha is non-zero. */
  predicate IsContent(img: Image, x: int, y: int)
    requires WellFormed(img)
    requires 0 <= x < img.width && 0 <= y < img.height
  {
    At(img, x, y).a > 0
  }

  /** A box as PIL's crop takes it: (left, top, right, bottom), right and bottom exclusive. */
  datatype CropBox = CropBox(left: int, top: int, right: int, bottom: int)

  predicate WithinImage(img: Image, box: CropBox) {
    0 <= box.left <= box.right <= img.width &&
    0 <= box.top <= box.bottom <= img.height
  }

  /** image.crop(box): the sub-grid whose pixel (x, y) is the source pixel (left + x, top + y). */
  function Crop(img: Image, box: CropBox): (c: Image)
    requires WellFormed(img) && WithinImage(img, box)
    ensures WellFormed(c)
    ensures c.width == box.right - box.left && c.height == box.bottom - box.top
    ensures forall x, y :: 0 <= x < c.width && 0 <= y < c.height ==>
              At(c, x, y) == At(img, box.left + x, box.top + y)
  {
    Image(box.right - box.left, box.bottom - box.top,
          seq(box.bottom - box.top, y requires 0 <= y < box.bottom - box.top =>
            img.rows[box.top + y][box.left..box.right]))
  }

  /**
   * `c` is the part of `img` whose top-left corner sits at (left, top): the
   * relation every crop policy establishes between its output and its source.
   */
  ghost predicate IsCropAt(img: Image, c: Image, left: int, top: int)
    requires WellFormed(img)
  {
    WellFormed(c) &&
    0 <= left && left + c.width <= img.width &&
    0 <= top && top + c.height <= img.height &&
    forall x, y :: 0 <= x < c.width && 0 <= y < c.height ==>
      At(c, x, y) == At(img, left + x, top + y)
  }

  lemma CropIsCropAt(img: Image, box: CropBox)
    requires WellFormed(img) && WithinImage(img, box)
    ensures IsCropAt(img, Crop(img, box), box.left, box.top)
  {
  }

  function PastedPixel(piece: Image, left: int, top: int, x: int, y: int): Pixel
    requires WellFormed(piece)
  {
    if left <= x < left + piece.width && top <= y < top + piece.height
    then At(piece, x - left, y - top)
    else Transparent
  }

  /**
   * A fully transparent canvas of the given size with `piece` drawn with its
   * top-left corner at (left, top): how a renderer repositions a cropped piece.
   */
  function Paste(width: nat, height: nat, piece: Image, left: int, top: int): (p: Image)
    requires WellFormed(piece)
    ensures WellFormed(p) && p.width == width && p.height == height
  {
    Image(width, height,
          seq(height, y requires 0 <= y < height =>
            seq(width, x requires 0 <= x < width => PastedPixel(piece, left, top, x, y))))
  }

  /** The canvas pixel (x, y) after Paste, as the drawing rule defines it. */
  lemma PasteAt(width: nat, height: nat, piece: Image, left: int, top: int, x: int, y: int)
    requires WellFormed(piece)
    requires 0 <= x < width && 0 <= y < height
    ensures At(Paste(width, height, piece, left, top), x, y) == PastedPixel(piece, left, top, x, y)
  {
  }

  /**
   * Drawing a piece back where it was cut from reproduces the source: if `c`
   * is the part of `img` at (left, top) and every content pixel of `img` lies
   * inside that part, the repositioned piece has the source's alpha at every
   * pixel and the source's exact pixel at every content pixel.
   */
  lemma {:induction false} PasteRestoresContent(img: Image, c: Image, left: int, top: int)
    requires WellFormed(img) && IsCropAt(img, c, left, top)
    requires forall x, y :: 0 <= x < img.width && 0 <= y < img.height && IsContent(img, x, y) ==>
               left <= x < left + c.width && top <= y < top + c.height
    ensures forall x, y :: 0 <= x < img.width && 0 <= y < img.height ==>
              At(Paste(img.width, img.height, c, left, top), x, y).a == At(img, x, y).a
    ensures forall x, y :: 0 <= x < img.width && 0 <= y < img.height && IsContent(img, x, y) ==>
              At(Paste(img.width, img.height, c, left, top), x, y) == At(img, x, y)
  {
    var p := Paste(img.width, img.height, c, left, top);
    forall x, y | 0 <= x < img.width && 0 <= y < img.height
      ensures At(p, x, y).a == At(img, x, y).a
      ensures IsContent(img, x, y) ==> At(p, x, y) == At(img, x, y)
    {
      PasteAt(img.width, img.height, c, left, top, x, y);
      if left <= x < left + c.width && top <= y < top + c.height {
        assert At(c, x - left, y - top) == At(img, left + (x - left), top + (y - top));
      } else {
        assert !IsContent(img, x, y);
      }
    }
  }

  function PixelBytes(p: Pixel): seq<byte> {
    [p.r, p.g, p.b, p.a]
  }

  function RowBytes(row: seq<Pixel>): (bs: seq<byte>)
    ensures |bs| == 4 * |row|
  {
    if row == [] then [] else PixelBytes(row[0]) + RowBytes(row[1..])
  }

  function RowsBytes(rows: seq<seq<Pixel>>): seq<byte> {
    if rows == [] then [] else RowBytes(rows[0]) + RowsBytes(rows[1..])
  }

  /** n * k as repeated addition, so that the length induction below stays linear. */
  function Times(n: nat, k: nat): nat {
    if n == 0 then 0 else Times(n - 1, k) + k
  }

  lemma {:induction false} TimesIsProduct(n: nat, k: nat)
    ensures Times(n, k) == n * k
  {
    if n > 0 {
      TimesIsProduct(n - 1, k);
      assert (n - 1) * k + k == n * k;
    }
  }

  lemma {:induction false} RowsBytesLength(rows: seq<seq<Pixel>>, width: nat)
    requires forall y :: 0 <= y < |rows| ==> |rows[y]| == width
    ensures |RowsBytes(rows)| == Times(|rows|, 4 * width)
  {
    if rows != [] {
      RowsBytesLength(rows[1..], width);
      assert |RowBytes(rows[0])| == 4 * width;
    }
  }

  lemma ReorderProduct(h: nat, w: nat)
    ensures h * (4 * w) == w * h * 4
  {
  }

  /**
   * Image.tobytes() of an RGBA image: the pixels row by row, four bytes each.
   * Its length is the width * height * 4 that the optimizer uses for sizes.
   */
  function ToBytes(img: Image): (bs: seq<byte>)
    requires WellFormed(img)
    ensures |bs| == img.width * img.height * 4
  {
    RowsBytesLength(img.rows, img.width);
    TimesIsProduct(img.height, 4 * img.width);
    ReorderProduct(img.height, img.width);
    RowsBytes(img.rows)
  }
}
