/**
 * `diff_images`, written identically in helix_hl_diff/img_ops.py and
 * helix_hl_diff/img_compare.py, modelled once: the per-channel absolute
 * difference of two RGB images (Pillow's ImageChops.difference), then the
 * bounding box of its non-black pixels (Pillow's getbbox) decides whether
 * the images differ.
 */
module ImageDiff {
  import opened Wrappers
  import opened Raster

  function Min(a: nat, b: nat): (m: nat)
    ensures m <= a && m <= b && (m == a || m == b)
  {
    if a <= b then a else b
  }

  /** `d` holds, channel by channel, the distance between `p` and `q`. */
  predicate IsAbsDiff(d: RGB, p: RGB, q: RGB) {
    && (d.red == p.red - q.red || d.red == q.red - p.red)
    && (d.green == p.green - q.green || d.green == q.green - p.green)
    && (d.blue == p.blue - q.blue || d.blue == q.blue - p.blue)
  }

  function Dist(p: Byte, q: Byte): Byte {
    if p >= q then p - q else q - p
  }

  function AbsDiff(p: RGB, q: RGB): (d: RGB)
    ensures IsAbsDiff(d, p, q)
    ensures d == BLACK <==> p == q
  {
    RGB(Dist(p.red, q.red), Dist(p.green, q.green), Dist(p.blue, q.blue))
  }

  /**
   * ImageChops.difference: one pixel per pixel of the region both images
   * cover, holding the per-channel |base - cmp|. For images of one size that
   * region is the whole image.
   */
  function Difference(base: Image, cmp: Image): (d: Image)
    requires base.Valid() && cmp.Valid()
    ensures d.Valid()
    ensures d.width == Min(base.width, cmp.width) && d.height == Min(base.height, cmp.height)
    ensures forall y, x :: 0 <= y < d.height && 0 <= x < d.width ==>
      IsAbsDiff(d.pixels[y][x], base.pixels[y][x], cmp.pixels[y][x])
    ensures forall y, x :: 0 <= y < d.height && 0 <= x < d.width ==>
      (d.pixels[y][x] == BLACK <==> base.pixels[y][x] == cmp.pixels[y][x])
  {
    var w := Min(base.width, cmp.width);
    var h := Min(base.height, cmp.height);
    Image(w, h, seq(h, y requires 0 <= y < h =>
                    seq(w, x requires 0 <= x < w => AbsDiff(base.pixels[y][x], cmp.pixels[y][x]))))
  }

  // ---------------------------------------------------------------------
  // The bounding box of the non-black pixels
  // ---------------------------------------------------------------------

  /** Left, upper, right and lower edge; right and lower are exclusive. */
  datatype Box = Box(left: nat, upper: nat, right: nat, lower: nat)

  /** Pixel (x, y) exists and has some nonzero channel. */
  predicate Ink(img: Image, y: int, x: int) {
    0 <= y < |img.pixels| && 0 <= x < |img.pixels[y]| && img.pixels[y][x] != BLACK
  }

  /** Rows are searched along y, columns along x. */
  datatype Axis = Rows | Cols

  /** Row or column `i` of `img` holds a non-black pixel. */
  predicate HasInk(img: Image, axis: Axis, i: int) {
    match axis
    case Rows => exists x :: 0 <= x < img.width && Ink(img, i, x)
    case Cols => exists y :: 0 <= y < img.height && Ink(img, y, i)
  }

  /** The number of rows or of columns. */
  function Extent(img: Image, axis: Axis): nat {
    match axis
    case Rows => img.height
    case Cols => img.width
  }

  /** A non-black pixel puts ink in its row and in its column. */
  lemma InkInRowAndCol(img: Image, y: int, x: int)
    requires img.Valid() && 0 <= y < img.height && 0 <= x < img.width && img.pixels[y][x] != BLACK
    ensures HasInk(img, Rows, y) && HasInk(img, Cols, x)
  {
    assert Ink(img, y, x);
  }

  /** The first line in [lo, Extent) with ink, or Extent when there is none. */
  function FirstInk(img: Image, axis: Axis, lo: nat): (r: nat)
    requires lo <= Extent(img, axis)
    ensures lo <= r <= Extent(img, axis)
    ensures r < Extent(img, axis) ==> HasInk(img, axis, r)
    ensures forall i :: lo <= i < r ==> !HasInk(img, axis, i)
    decreases Extent(img, axis) - lo
  {
    if lo == Extent(img, axis) then lo
    else if HasInk(img, axis, lo) then lo
    else FirstInk(img, axis, lo + 1)
  }

  /** One past the last line in [0, hi) with ink, or 0 when there is none. */
  function EndInk(img: Image, axis: Axis, hi: nat): (r: nat)
    ensures r <= hi
    ensures r > 0 ==> HasInk(img, axis, r - 1)
    ensures forall i :: r <= i < hi ==> !HasInk(img, axis, i)
  {
    if hi == 0 then 0
    else if HasInk(img, axis, hi - 1) then hi
    else EndInk(img, axis, hi - 1)
  }

  /** Every pixel of `img` is black. */
  predicate AllBlack(img: Image)
    requires img.Valid()
  {
    forall y, x :: 0 <= y < img.height && 0 <= x < img.width ==> img.pixels[y][x] == BLACK
  }

  /**
   * Image.getbbox: None for an image that is black all over, otherwise the
   * box from the first to past the last column with ink and from the first
   * to past the last row with ink.
   */
  function GetBBox(img: Image): (r: Option<Box>)
    requires img.Valid()
    ensures r.None? <==> AllBlack(img)
  {
    InkInRowsAndCols(img);
    var upper := FirstInk(img, Rows, 0);
    if upper == img.height then None
    else Some(Box(FirstInk(img, Cols, 0), upper, EndInk(img, Cols, img.width), EndInk(img, Rows, img.height)))
  }

  /** The box getbbox reports is not empty, holds every non-black pixel, and has ink on each edge. */
  lemma GetBBoxTight(img: Image)
    requires img.Valid() && GetBBox(img).Some?
    ensures var b := GetBBox(img).value;
      && b.left < b.right <= img.width
      && b.upper < b.lower <= img.height
      && (forall y, x :: 0 <= y < img.height && 0 <= x < img.width && img.pixels[y][x] != BLACK ==>
            b.upper <= y < b.lower && b.left <= x < b.right)
      && HasInk(img, Rows, b.upper) && HasInk(img, Rows, b.lower - 1)
      && HasInk(img, Cols, b.left) && HasInk(img, Cols, b.right - 1)
  {
    var upper := FirstInk(img, Rows, 0);
    var left, right := FirstInk(img, Cols, 0), EndInk(img, Cols, img.width);
    var lower := EndInk(img, Rows, img.height);
    assert GetBBox(img).value == Box(left, upper, right, lower);
    assert HasInk(img, Rows, upper);
    var x0 :| 0 <= x0 < img.width && Ink(img, upper, x0);
    InkInRowAndCol(img, upper, x0);
    assert left <= x0 < right;
    forall y, x | 0 <= y < img.height && 0 <= x < img.width && img.pixels[y][x] != BLACK
      ensures upper <= y < lower && left <= x < right
    {
      InkInRowAndCol(img, y, x);
    }
  }

  lemma InkInRowsAndCols(img: Image)
    requires img.Valid()
    ensures forall y, x {:trigger img.pixels[y][x]} ::
      0 <= y < img.height && 0 <= x < img.width && img.pixels[y][x] != BLACK ==>
      HasInk(img, Rows, y) && HasInk(img, Cols, x)
  {
    forall y: int, x: int {:trigger img.pixels[y][x]} | 0 <= y < img.height && 0 <= x < img.width && img.pixels[y][x] != BLACK
      ensures HasInk(img, Rows, y) && HasInk(img, Cols, x)
    {
      InkInRowAndCol(img, y, x);
    }
  }

  // ---------------------------------------------------------------------
  // diff_images
  // ---------------------------------------------------------------------

  /** The pair diff_images returns: a flag and, when it is set, the difference image. */
  datatype DiffResult = DiffResult(differs: bool, diff: Option<Image>)

  /** Some pixel of the region both images cover differs between them. */
  predicate SomePixelDiffers(base: Image, cmp: Image)
    requires base.Valid() && cmp.Valid()
  {
    exists y, x :: 0 <= y < Min(base.height, cmp.height) && 0 <= x < Min(base.width, cmp.width) &&
      base.pixels[y][x] != cmp.pixels[y][x]
  }

  function DiffImages(base: Image, cmp: Image): (r: DiffResult)
    requires base.Valid() && cmp.Valid()
    ensures r.differs <==> SomePixelDiffers(base, cmp)
    ensures r.diff.Some? <==> r.differs
    ensures r.differs ==> r.diff == Some(Difference(base, cmp))
  {
    var d := Difference(base, cmp);
    if GetBBox(d).Some? then DiffResult(true, Some(d)) else DiffResult(false, None)
  }

  /** An image never differs from itself. */
  lemma DiffSelf(img: Image)
    requires img.Valid()
    ensures DiffImages(img, img) == DiffResult(false, None)
  {
  }

  /** Swapping the arguments changes nothing, not even the difference image. */
  lemma DiffSymmetric(base: Image, cmp: Image)
    requires base.Valid() && cmp.Valid()
    ensures DiffImages(base, cmp) == DiffImages(cmp, base)
  {
    var d, e := Difference(base, cmp), Difference(cmp, base);
    forall y | 0 <= y < d.height ensures d.pixels[y] == e.pixels[y] {
      forall x | 0 <= x < d.width ensures d.pixels[y][x] == e.pixels[y][x] {
        var p, q := base.pixels[y][x], cmp.pixels[y][x];
        assert d.pixels[y][x] == AbsDiff(p, q) && e.pixels[y][x] == AbsDiff(q, p);
      }
    }
    assert d == e;
  }

  /** For images of one size, diff_images reports a difference exactly when they are not equal. */
  lemma DiffDetectsInequality(base: Image, cmp: Image)
    requires base.Valid() && cmp.Valid()
    requires base.width == cmp.width && base.height == cmp.height
    ensures DiffImages(base, cmp).differs <==> base != cmp
  {
    if !DiffImages(base, cmp).differs {
      forall y | 0 <= y < base.height ensures base.pixels[y] == cmp.pixels[y] {
        assert forall x :: 0 <= x < base.width ==> base.pixels[y][x] == cmp.pixels[y][x];
      }
      assert base.pixels == cmp.pixels;
    }
  }

  /**
   * The difference covers only the region both images share, so a 1x1
   * black image and a 2x1 image that is black then white are not reported
   * as different.
   */
  lemma DiffIgnoresSizeMismatch()
    ensures var small := Image(1, 1, [[BLACK]]);
            var wide := Image(2, 1, [[BLACK, WHITE]]);
            small != wide && DiffImages(small, wide) == DiffResult(false, None)
  {
    var small := Image(1, 1, [[BLACK]]);
    var wide := Image(2, 1, [[BLACK, WHITE]]);
    assert !SomePixelDiffers(small, wide);
  }
}
