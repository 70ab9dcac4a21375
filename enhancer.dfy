/**
 * The image enhancer: it holds a decoded source image, the 256-bin histogram
 * and cumulative histogram arrays it recomputes in place, and the enhanced
 * image that either of its two algorithms produces.
 */
module Enhancer {
  import opened Pixels
  import opened Equalization
  import opened Fuzzy

  /** Largest Java `int`. */
  const MAX_INT: int := 0x7fff_ffff

  /** The message of the `IllegalStateException` thrown by a premature save. */
  const RUN_ENHANCEMENT_FIRST: string := "Run enhancement first."

  datatype EnhancerError = IllegalState(message: string)

  /** Either the save went ahead, or it was refused with an error. */
  datatype Outcome = Pass | Fail(error: EnhancerError)

  /** The pixels of row y, from left to right. */
  ghost function Row(img: array2<Rgb>, y: int): (r: seq<Rgb>)
    requires 0 <= y < img.Length1
    reads img
    ensures |r| == img.Length0
  {
    seq(img.Length0, x requires 0 <= x < img.Length0 reads img => img[x, y])
  }

  /** The pixels of the first n rows, row after row. */
  ghost function Rows(img: array2<Rgb>, n: nat): seq<Rgb>
    requires n <= img.Length1
    reads img
  {
    if n == 0 then [] else Rows(img, n - 1) + Row(img, n - 1)
  }

  /** Every pixel of the image, in the order the enhancer's loops visit them. */
  ghost function RowMajor(img: array2<Rgb>): seq<Rgb>
    reads img
  {
    Rows(img, img.Length1)
  }

  /** The pixels visited before (x, y): all rows above y, then row y left of x. */
  ghost function Visited(img: array2<Rgb>, y: nat, x: nat): seq<Rgb>
    requires y < img.Length1 && x <= img.Length0
    reads img
  {
    Rows(img, y) + Row(img, y)[..x]
  }

  lemma VisitedRowStart(img: array2<Rgb>, y: nat)
    requires y < img.Length1
    ensures Visited(img, y, 0) == Rows(img, y)
  {
    assert Row(img, y)[..0] == [];
  }

  lemma VisitedRowEnd(img: array2<Rgb>, y: nat)
    requires y < img.Length1
    ensures Visited(img, y, img.Length0) == Rows(img, y + 1)
  {
    assert Row(img, y)[..img.Length0] == Row(img, y);
  }

  lemma VisitedStep(img: array2<Rgb>, y: nat, x: nat)
    requires y < img.Length1 && x < img.Length0
    ensures Visited(img, y, x + 1) == Visited(img, y, x) + [img[x, y]]
  {
    var row := Row(img, y);
    assert row[..x + 1] == row[..x] + [img[x, y]];
  }

  lemma {:induction false} RowsLength(img: array2<Rgb>, n: nat)
    requires n <= img.Length1
    ensures |Rows(img, n)| == img.Length0 * n
  {
    if n > 0 {
      RowsLength(img, n - 1);
      assert img.Length0 * (n - 1) + img.Length0 == img.Length0 * n;
    }
  }

  lemma PixelCountPositive(width: int, height: int)
    requires 1 <= width && 1 <= height
    ensures 1 <= width * height
  {
  }

  /** An image's histogram holds non-negative counts adding up to its pixel count. */
  lemma ImageHistogramFits(img: array2<Rgb>)
    ensures NonNegative(Histogram(RowMajor(img)))
    ensures Sum(Histogram(RowMajor(img))) == img.Length0 * img.Length1
  {
    HistogramNonNegative(RowMajor(img));
    HistogramTotal(RowMajor(img));
    RowsLength(img, img.Length1);
  }

  /**
   * The counting loops of `calculateHistogram`: a fresh 256-bin array,
   * zeroed, then one increment of bin `Gray(p)` per pixel p, row by row.
   */
  method CountGrayLevels(img: array2<Rgb>) returns (h: array<int>)
    ensures fresh(h)
    ensures h[..] == Histogram(RowMajor(img))
  {
    h := new int[LEVELS](_ => 0);
    var y := 0;
    while y < img.Length1
      invariant 0 <= y <= img.Length1
      invariant h[..] == Histogram(Rows(img, y))
    {
      CountRow(img, y, h);
      y := y + 1;
    }
  }

  /** The inner loop of `calculateHistogram`: counts the pixels of row y into h. */
  method CountRow(img: array2<Rgb>, y: nat, h: array<int>)
    requires y < img.Length1
    requires h[..] == Histogram(Rows(img, y))
    modifies h
    ensures h[..] == Histogram(Rows(img, y + 1))
  {
    var x := 0;
    VisitedRowStart(img, y);
    while x < img.Length0
      invariant 0 <= x <= img.Length0
      invariant h[..] == Histogram(Visited(img, y, x))
    {
      var gray := Gray(img[x, y]);
      VisitedStep(img, y, x);
      HistogramAppend(Visited(img, y, x), img[x, y]);
      h[gray] := h[gray] + 1;
      x := x + 1;
    }
    VisitedRowEnd(img, y);
  }

  /**
   * The table loop of `equalizeHistogram`: a fresh 256-entry array whose
   * entry i is 255 * c[i] / total, truncated.
   */
  method BuildLookupTable(c: array<int>, total: int) returns (lookupTable: array<int>)
    requires c.Length == LEVELS && total > 0
    ensures fresh(lookupTable)
    ensures lookupTable[..] == Lookup(c[..], total)
  {
    lookupTable := new int[LEVELS];
    for i := 0 to LEVELS
      invariant forall k :: 0 <= k < i ==> lookupTable[k] == 255 * c[k] / total
    {
      lookupTable[i] := 255 * c[i] / total;
    }
  }

  /** The table built from the enhancer's arrays is the equalization table of the image. */
  lemma TableOfImage(ps: seq<Rgb>, h: seq<int>, c: seq<int>, total: int, lut: seq<int>)
    requires h == Histogram(ps) && c == PrefixSums(h)
    requires total == |ps| > 0 && lut == Lookup(c, total)
    ensures lut == EqualizationTable(ps)
  {
  }

  /**
   * The output loops shared by both enhancements: every pixel (x, y) of `out`
   * becomes the neutral gray of `level` applied to pixel (x, y) of `img`
   * (`enhancedImage.setRGB(x, y, new Color(v, v, v).getRGB())`). Only `out`
   * changes.
   */
  method MapPixels(img: array2<Rgb>, out: array2<Rgb>, level: Rgb -> Channel)
    requires out != img
    requires out.Length0 == img.Length0 && out.Length1 == img.Length1
    modifies out
    ensures forall x, y :: 0 <= x < out.Length0 && 0 <= y < out.Length1 ==>
      out[x, y] == GrayPixel(level(img[x, y]))
  {
    var y := 0;
    while y < img.Length1
      invariant 0 <= y <= img.Length1
      invariant forall x', y' :: 0 <= x' < img.Length0 && 0 <= y' < y ==>
        out[x', y'] == GrayPixel(level(img[x', y']))
    {
      var x := 0;
      while x < img.Length0
        invariant 0 <= x <= img.Length0
        invariant forall x', y' :: 0 <= x' < img.Length0 && 0 <= y' < y ==>
          out[x', y'] == GrayPixel(level(img[x', y']))
        invariant forall x' :: 0 <= x' < x ==> out[x', y] == GrayPixel(level(img[x', y]))
      {
        out[x, y] := GrayPixel(level(img[x, y]));
        x := x + 1;
      }
      y := y + 1;
    }
  }

  class ImageEnhancer {
    /** The decoded source image, indexed [x, y]; width is Length0, height Length1. */
    var originalImage: array2<Rgb>
    /** The result of the last enhancement, or null before any has run. */
    var enhancedImage: array2?<Rgb>
    var histogram: array<int>
    var cumulativeHistogram: array<int>

    function Width(): nat
      reads this
    {
      originalImage.Length0
    }

    function Height(): nat
      reads this
    {
      originalImage.Length1
    }

    /**
     * The object invariant. A decoded image is never empty and, its raster
     * being indexed by a Java `int`, has at most MAX_INT pixels. The histogram
     * holds non-negative counts adding up to at most that pixel count, so no
     * bin and no prefix sum can overflow an `int`.
     */
    ghost predicate Valid()
      reads this, histogram
    {
      && histogram.Length == LEVELS
      && cumulativeHistogram.Length == LEVELS
      && histogram != cumulativeHistogram
      && 1 <= Width() && 1 <= Height()
      && Width() * Height() <= MAX_INT
      && NonNegative(histogram[..])
      && Sum(histogram[..]) <= Width() * Height()
      && (enhancedImage != null ==>
            && enhancedImage != originalImage
            && enhancedImage.Length0 == Width()
            && enhancedImage.Length1 == Height())
    }

    /**
     * Starts from an already decoded image, with zeroed histogram arrays and
     * no enhanced image.
     */
    constructor (image: array2<Rgb>)
      requires 1 <= image.Length0 && 1 <= image.Length1
      requires image.Length0 * image.Length1 <= MAX_INT
      ensures Valid()
      ensures originalImage == image && enhancedImage == null
      ensures fresh(histogram) && fresh(cumulativeHistogram)
      ensures histogram[..] == seq(LEVELS, _ => 0)
      ensures cumulativeHistogram[..] == seq(LEVELS, _ => 0)
    {
      originalImage := image;
      enhancedImage := null;
      histogram := new int[LEVELS](_ => 0);
      cumulativeHistogram := new int[LEVELS](_ => 0);
      new;
      assert histogram[..] == seq(LEVELS, _ => 0);
      SumZeros(LEVELS);
    }

    /**
     * `calculateHistogram`: replaces the histogram by a fresh array in which
     * bin g counts the pixels of the original image whose gray level is g.
     * The result depends on the original image alone, so running it again
     * gives the same counts.
     */
    method CalculateHistogram()
      requires Valid()
      modifies this
      ensures Valid()
      ensures fresh(histogram)
      ensures histogram[..] == Histogram(RowMajor(originalImage))
      ensures originalImage == old(originalImage) && enhancedImage == old(enhancedImage)
      ensures cumulativeHistogram == old(cumulativeHistogram)
    {
      histogram := CountGrayLevels(originalImage);
      ImageHistogramFits(originalImage);
    }

    /**
     * `calculateCumulativeHistogram`: overwrites the cumulative histogram in
     * place so that entry i is the sum of bins 0 through i. The entries rise
     * from the first bin to the total count and never exceed the pixel count,
     * so the Java `int` additions do not wrap around.
     */
    method CalculateCumulativeHistogram()
      requires Valid()
      modifies cumulativeHistogram
      ensures Valid()
      ensures cumulativeHistogram[..] == PrefixSums(histogram[..])
      ensures NonDecreasing(cumulativeHistogram[..])
      ensures cumulativeHistogram[LEVELS - 1] == Sum(histogram[..])
      ensures forall i :: 0 <= i < LEVELS ==> 0 <= cumulativeHistogram[i] <= Width() * Height() <= MAX_INT
    {
      var h, c := histogram, cumulativeHistogram;
      c[0] := h[0];
      assert h[..][..1] == [h[0]] && Sum([h[0]]) == h[0];
      for i := 1 to LEVELS
        invariant forall k :: 0 <= k < i ==> c[k] == PrefixSums(h[..])[k]
      {
        c[i] := c[i - 1] + h[i];
        PrefixSumsStep(h[..], i);
      }
      assert c[..] == PrefixSums(h[..]);
      CumulativeProperties(h[..]);
    }

    /**
     * `equalizeHistogram`: recomputes both histograms, builds the lookup table
     * and writes a fresh image of the same size in which every pixel is the
     * neutral gray of the table entry for the original pixel's gray level.
     * The original image is untouched.
     */
    method EqualizeHistogram()
      requires Valid()
      modifies this, cumulativeHistogram
      ensures Valid()
      ensures originalImage == old(originalImage) && unchanged(originalImage)
      ensures fresh(histogram) && cumulativeHistogram == old(cumulativeHistogram)
      ensures histogram[..] == Histogram(RowMajor(originalImage))
      ensures cumulativeHistogram[..] == PrefixSums(histogram[..])
      ensures enhancedImage != null && fresh(enhancedImage)
      ensures enhancedImage.Length0 == Width() && enhancedImage.Length1 == Height()
      ensures forall x, y :: 0 <= x < Width() && 0 <= y < Height() ==>
        enhancedImage[x, y] == GrayPixel(EqualizedLevel(RowMajor(originalImage), Gray(originalImage[x, y])))
    {
      var img := originalImage;
      var out := new Rgb[img.Length0, img.Length1];
      enhancedImage := out;
      CalculateHistogram();
      ghost var ps := RowMajor(img);
      ghost var counts := histogram[..];
      CalculateCumulativeHistogram();

      var totalPixels := img.Length0 * img.Length1;
      PixelCountPositive(img.Length0, img.Length1);
      RowsLength(img, img.Length1);
      var lookupTable := BuildLookupTable(cumulativeHistogram, totalPixels);
      var lut := lookupTable[..];
      TableOfImage(ps, counts, cumulativeHistogram[..], totalPixels, lut);
      MapPixels(img, out, p => Clamp(lut[Gray(p)]));
      forall x, y | 0 <= x < img.Length0 && 0 <= y < img.Length1
        ensures out[x, y] == GrayPixel(EqualizedLevel(ps, Gray(img[x, y])))
      {
        var g := Gray(img[x, y]);
        assert out[x, y] == GrayPixel(Clamp(lut[g]));
      }
      assert RowMajor(img) == ps;
    }

    /**
     * `applyFuzzyEnhancement`: writes a fresh image of the same size in which
     * every pixel is the neutral gray of the fuzzy level of the original
     * pixel's intensity, under the source thresholds. The histograms and the
     * original image are untouched.
     */
    method ApplyFuzzyEnhancement()
      requires Valid()
      modifies this
      ensures Valid()
      ensures originalImage == old(originalImage) && unchanged(originalImage)
      ensures histogram == old(histogram) && cumulativeHistogram == old(cumulativeHistogram)
      ensures enhancedImage != null && fresh(enhancedImage)
      ensures enhancedImage.Length0 == Width() && enhancedImage.Length1 == Height()
      ensures forall x, y :: 0 <= x < Width() && 0 <= y < Height() ==>
        enhancedImage[x, y] == GrayPixel(FuzzyLevel(SourceThresholds, Intensity(originalImage[x, y])))
    {
      var img := originalImage;
      var out := new Rgb[img.Length0, img.Length1];
      enhancedImage := out;
      MapPixels(img, out, p => FuzzyLevel(SourceThresholds, Intensity(p)));
    }

    /**
     * The state check of `saveEnhancedImage`: saving is refused with the
     * "Run enhancement first." state error exactly when no enhancement has
     * run. Nothing in the enhancer changes.
     */
    method SaveEnhancedImage(fileName: string) returns (r: Outcome)
      requires Valid()
      ensures r.Fail? <==> enhancedImage == null
      ensures r.Fail? ==> r.error == IllegalState(RUN_ENHANCEMENT_FIRST)
    {
      if enhancedImage == null {
        return Fail(IllegalState(RUN_ENHANCEMENT_FIRST));
      }
      r := Pass;
    }
  }
}
