/**
 * `stack_images` of helix_hl_diff/img_ops.py: a fresh black image as wide as
 * all inputs together and as high as the highest, with the inputs pasted
 * into it left to right. (`diff_images` of the same file is ImageDiff.)
 */
module ImgOps {
  import opened Wrappers
  import opened Raster

  /** The widths of `images` added up. */
  function SumWidths(images: seq<Image>): (w: nat)
    ensures forall i :: 0 <= i < |images| ==> images[i].width <= w
  {
    if images == [] then 0
    else
      assert forall i :: 1 <= i < |images| ==> images[i] == images[1..][i - 1];
      images[0].width + SumWidths(images[1..])
  }

  /** The largest height among `images`, which must not be empty (Python's max raises otherwise). */
  function MaxHeight(images: seq<Image>): (h: nat)
    requires images != []
    ensures forall i :: 0 <= i < |images| ==> images[i].height <= h
    ensures exists i :: 0 <= i < |images| && images[i].height == h
  {
    if |images| == 1 then images[0].height
    else
      var rest := MaxHeight(images[1..]);
      assert forall i :: 1 <= i < |images| ==> images[i] == images[1..][i - 1];
      if images[0].height >= rest then images[0].height else rest
  }

  /**
   * The stacked image's pixel at row y, column x: the pixel of the input
   * whose columns hold x, shifted by the widths before it, or black where
   * that input is not as high or no input reaches.
   */
  function StackedPixel(images: seq<Image>, y: nat, x: nat): RGB
    decreases |images|
  {
    if images == [] then BLACK
    else if x < images[0].width then
      (if y < images[0].height && y < |images[0].pixels| && x < |images[0].pixels[y]|
       then images[0].pixels[y][x] else BLACK)
    else StackedPixel(images[1..], y, x - images[0].width)
  }

  /** Columns right of the inputs are black. */
  lemma {:induction false} StackedPixelBeyond(images: seq<Image>, y: nat, x: nat)
    requires x >= SumWidths(images)
    ensures StackedPixel(images, y, x) == BLACK
    decreases |images|
  {
    if images != [] {
      StackedPixelBeyond(images[1..], y, x - images[0].width);
    }
  }

  lemma {:induction false} SumWidthsSnoc(images: seq<Image>, img: Image)
    ensures SumWidths(images + [img]) == SumWidths(images) + img.width
    decreases |images|
  {
    if images == [] {
      assert [] + [img] == [img];
    } else {
      assert (images + [img])[1..] == images[1..] + [img];
      SumWidthsSnoc(images[1..], img);
    }
  }

  /** Appending an input leaves the columns before it alone and places it after them. */
  lemma {:induction false} StackedPixelSnoc(images: seq<Image>, img: Image, y: nat, x: nat)
    requires img.Valid()
    ensures StackedPixel(images + [img], y, x) ==
      if x < SumWidths(images) then StackedPixel(images, y, x)
      else if x - SumWidths(images) < img.width && y < img.height then img.pixels[y][x - SumWidths(images)]
      else BLACK
    decreases |images|
  {
    SumWidthsSnoc(images, img);
    if images == [] {
      assert [] + [img] == [img];
      assert [img][1..] == [];
    } else {
      assert (images + [img])[1..] == images[1..] + [img];
      SumWidthsSnoc(images[1..], img);
      if x >= images[0].width {
        StackedPixelSnoc(images[1..], img, y, x - images[0].width);
      } else {
        StackedPixelSnoc(images[1..], img, y, 0);
      }
    }
  }

  /** The offset of input k is the sum of the widths before it. */
  lemma {:induction false} SumWidthsSplit(images: seq<Image>, k: nat)
    requires k < |images|
    ensures SumWidths(images) == SumWidths(images[..k]) + images[k].width + SumWidths(images[k + 1..])
    decreases k
  {
    if k > 0 {
      assert images[1..][..k - 1] == images[1..k];
      assert images[..k][1..] == images[1..k];
      assert images[1..][k..] == images[k + 1..];
      SumWidthsSplit(images[1..], k - 1);
    }
  }

  /**
   * Input k of a stack appears at x offset SumWidths(images[..k]), y offset
   * 0, and below its own height its columns are black.
   */
  lemma {:induction false} StackPlacesInput(images: seq<Image>, k: nat, y: nat, x: nat)
    requires k < |images| && images[k].Valid() && x < images[k].width
    ensures StackedPixel(images, y, SumWidths(images[..k]) + x) ==
      if y < images[k].height then images[k].pixels[y][x] else BLACK
    decreases k
  {
    if k > 0 {
      assert images[1..][..k - 1] == images[1..k];
      assert images[..k][1..] == images[1..k];
      StackPlacesInput(images[1..], k - 1, y, x);
    }
  }

  /**
   * Paste `img` with its top-left corner at column x0, row 0 of `dst`;
   * the part outside `dst` is clipped.
   */
  method Paste(dst: array2<RGB>, img: Image, x0: nat)
    requires img.Valid()
    modifies dst
    ensures forall y, x :: 0 <= y < dst.Length0 && 0 <= x < dst.Length1 ==>
      dst[y, x] == if y < img.height && x0 <= x < x0 + img.width then img.pixels[y][x - x0] else old(dst[y, x])
  {
    for y := 0 to img.height
      invariant forall yy, xx :: 0 <= yy < dst.Length0 && 0 <= xx < dst.Length1 ==>
        dst[yy, xx] == if yy < y && x0 <= xx < x0 + img.width then img.pixels[yy][xx - x0] else old(dst[yy, xx])
    {
      for x := 0 to img.width
        invariant forall yy, xx :: 0 <= yy < dst.Length0 && 0 <= xx < dst.Length1 ==>
          dst[yy, xx] ==
            if (yy < y && x0 <= xx < x0 + img.width) || (yy == y && x0 <= xx < x0 + x)
            then img.pixels[yy][xx - x0] else old(dst[yy, xx])
      {
        if y < dst.Length0 && x0 + x < dst.Length1 {
          dst[y, x0 + x] := img.pixels[y][x];
        }
      }
    }
  }

  /**
   * stack_images: None when there is nothing to stack (max() of no heights
   * raises), otherwise a fresh image SumWidths wide and MaxHeight high
   * showing StackedPixel everywhere.
   */
  method StackImages(images: seq<Image>) returns (r: Option<array2<RGB>>)
    requires forall i :: 0 <= i < |images| ==> images[i].Valid()
    ensures images == [] <==> r.None?
    ensures r.Some? ==> fresh(r.value)
    ensures r.Some? ==> r.value.Length0 == MaxHeight(images) && r.value.Length1 == SumWidths(images)
    ensures r.Some? ==> forall y, x :: 0 <= y < r.value.Length0 && 0 <= x < r.value.Length1 ==>
      r.value[y, x] == StackedPixel(images, y, x)
  {
    if images == [] {
      return None;
    }
    var height := MaxHeight(images);
    var width := SumWidths(images);
    var stacked := new RGB[height, width]((y, x) => BLACK);
    var offset := 0;
    for k := 0 to |images|
      invariant offset == SumWidths(images[..k])
      invariant forall y, x :: 0 <= y < height && 0 <= x < width ==> stacked[y, x] == StackedPixel(images[..k], y, x)
    {
      var img := images[k];
      assert images[..k + 1] == images[..k] + [img];
      Paste(stacked, img, offset);
      SumWidthsSnoc(images[..k], img);
      forall y, x | 0 <= y < height && 0 <= x < width
        ensures stacked[y, x] == StackedPixel(images[..k + 1], y, x)
      {
        StackedPixelSnoc(images[..k], img, y, x);
        if x >= offset {
          StackedPixelBeyond(images[..k], y, x);
        }
      }
      offset := offset + img.width;
    }
    assert images[..|images|] == images;
    return Some(stacked);
  }
}
