# Image enhancer model

This project models the `ImageEnhancer` class of a small Java image-enhancement
program (`Main.java`). The class holds a decoded colour image and offers two
grayscale enhancement algorithms:

- **Global histogram equalization.** Each pixel gets a gray level
  (0.299 R + 0.587 G + 0.114 B, truncated). The gray levels are counted into a
  256-bin histogram. Its prefix sums (the cumulative histogram) become a lookup
  table `255 * C[g] / totalPixels`. Every output pixel is the neutral gray that
  the table gives for the source pixel's level.
- **Fuzzy enhancement.** Each pixel's intensity is the channel average.
  Three membership functions (dark, gray, bright) over the thresholds
  75 / 75 / 150 / 150 weight the factors 1.5, 1.2 and 0.9. The output is the
  intensity times the blended factor, truncated and clamped to [0, 255].

Saving refuses with the state error "Run enhancement first." until one of the
two algorithms has produced an image.

The project has four modules:

- `Pixels` (`pixels.dfy`): the RGB pixel, `Gray`, `Intensity` and the clamp to
  [0, 255].
- `Equalization` (`equalization.dfy`): the equalization described as functions
  on sequences (histogram, prefix sums, lookup table). It proves the facts the
  enhancer relies on:
  - bins count pixels;
  - the cumulative histogram rises to the pixel count;
  - the table stays in [0, 255], never decreases and ends at 255.
- `Fuzzy` (`fuzzy.dfy`): the membership functions over a record of thresholds,
  the blend factor, and the level of one pixel. With the enhancer's constants,
  this level is given in closed form.
- `Enhancer` (`enhancer.dfy`): the `ImageEnhancer` class. Its images are
  `array2<Rgb>` indexed `[x, y]`, its histograms are `int` arrays updated in
  place, and its loops are proved against the functions above. Its invariant
  `Valid` keeps every count, and so every prefix sum
  `CalculateCumulativeHistogram` computes, within a Java `int`.

The Java code needs no guard against a zero denominator in the blend
`(dark * 1.5 + gray * 1.2 + bright * 0.9) / (dark + gray + bright)`. For
ordered thresholds the memberships always add up to exactly 1
(`Fuzzy.MembershipsSumToOne`). With the fixed thresholds, the interpolating
branches of the membership functions are never taken: exactly one membership
is 1 and the others are 0.

## Model

| member | source | states |
|---|---|---|
| Pixels.GrayPixel | Main.java:127 | `new Color(v, v, v)`: the pixel whose three channels all equal v |
| Pixels.Gray | Main.java:90-92 | `getGrayscale`: the luma truncated to an integer, 1000 g <= 299 R + 587 G + 114 B < 1000 g + 1000; it lies between the darkest and the brightest channel, so it is always a valid bin index |
| Pixels.GrayOfGrayPixel | Main.java:90-92 | a neutral pixel of level v has gray level v |
| Pixels.Intensity | Main.java:138 | `(R + G + B) / 3`: 3 i <= R + G + B < 3 i + 3 |
| Pixels.Clamp | Main.java:126 | `Math.min(255, Math.max(0, v))`: v itself inside [0, 255], 0 below, 255 above |
| Equalization.Occurrences | Main.java:96-99 | the number of visited pixels of gray level g, at most the number of pixels |
| Equalization.Histogram | Main.java:94-102 | the histogram after the pixels are visited in order: 256 bins, one increment per pixel in the bin of its gray level |
| Equalization.HistogramAppend | Main.java:98-99 | visiting one more pixel adds exactly one to the bin of its gray level and changes no other bin |
| Equalization.HistogramCounts | Main.java:94-102 | bin g equals the number of pixels whose gray level is g |
| Equalization.HistogramNonNegative | Main.java:94-102 | every bin is non-negative |
| Equalization.HistogramTotal | Main.java:94-102 | the bins add up to the number of pixels |
| Equalization.PrefixSums | Main.java:104-109 | the cumulative histogram: entry i is the sum of bins 0 through i |
| Equalization.PrefixSumsStep | Main.java:107 | entry i is entry i - 1 plus bin i, which is the loop's recurrence |
| Equalization.CumulativeProperties | Main.java:104-109 | over non-negative bins: entry 0 is bin 0; the entries never decrease, stay within [0, total] and the last one is the total |
| Equalization.Lookup | Main.java:117-120 | one table entry per cumulative entry |
| Equalization.LookupProperties | Main.java:116-120 | for cumulative counts in [0, total] that end at the total: every entry is in [0, 255], the table never decreases, and its last entry is 255 |
| Equalization.EqualizationTable | Main.java:113-120 | the 256-entry table of a non-empty image |
| Equalization.EqualizationTableProperties | Main.java:113-126 | the table of any non-empty image has entries in [0, 255], never decreases and maps level 255 to 255, so the clamp never changes an entry |
| Equalization.EqualizedLevel | Main.java:125-126 | the level written for gray level g is the clamped table entry |
| Equalization.EqualizationPreservesOrder | Main.java:116-126 | equalization keeps the order of gray levels: g1 <= g2 implies level(g1) <= level(g2) |
| Equalization.UniformImageMapsToWhite | Main.java:113-120 | an image whose pixels all have one gray level g maps g to 255 |
| Fuzzy.SourceThresholds | Main.java:68-71 | the four thresholds `DARK_THRESHOLD`, `GRAY_THRESHOLD_LOW`, `GRAY_THRESHOLD_HIGH`, `BRIGHT_THRESHOLD`: 75 / 75 / 150 / 150, in that order |
| Fuzzy.DarkMembership | Main.java:152-156 | `getDarkMembership`: 1 up to the dark threshold, linear between dark and gray-low, 0 beyond; always in [0, 1] |
| Fuzzy.GrayMembership | Main.java:158-164 | `getGrayMembership`: rises on (dark, gray-low], is 1 up to gray-high, falls on (gray-high, bright], is 0 elsewhere; always in [0, 1] |
| Fuzzy.BrightMembership | Main.java:166-170 | `getBrightMembership`: 0 up to gray-high, linear up to bright, 1 beyond; always in [0, 1] |
| Fuzzy.MembershipsSumToOne | Main.java:140-144 | for ordered thresholds the three memberships add up to 1 at every intensity, so the blend's denominator is never zero |
| Fuzzy.Enhancement | Main.java:144 | the blend factor is a weighted mean of 1.5, 1.2 and 0.9, so it lies in [0.9, 1.5] |
| Fuzzy.TruncateToInt | Main.java:145 | Java's `(int)` cast for finite arguments within `int` range: truncation toward zero, within one of the argument |
| Fuzzy.FuzzyLevel | Main.java:138-145 | the level written for intensity i: at least min(255, 9i/10) and at most 3i/2 |
| Fuzzy.SourceMembershipsAreCrisp | Main.java:68-71 | with thresholds 75 / 75 / 150 / 150 exactly one membership is 1: dark up to 75, gray from 76 to 150, bright above 150 |
| Fuzzy.SourceEnhancementFactor | Main.java:144 | with those thresholds the blend factor is exactly 1.5, 1.2 or 0.9 by zone |
| Fuzzy.TruncateRatio | Main.java:145 | truncating n * (p / q) gives the integer quotient n p / q |
| Fuzzy.FuzzyLevelClosedForm | Main.java:133-149 | with the fixed thresholds the level is 3i/2, 6i/5 or 9i/10 by zone; it already lies in [0, 255], so the clamp never applies |
| Fuzzy.FuzzyInvertsAtBoundaries | Main.java:68-71 | the hard zone steps invert brightness: 75 becomes 112 but 76 becomes 91, and 150 becomes 180 but 151 becomes 135 |
| Enhancer.ImageHistogramFits | Main.java:94-102 | an image's histogram has non-negative bins summing to width * height |
| Enhancer.RowsLength | Main.java:116 | the row-major pixel sequence has width * height pixels, which is `totalPixels` |
| Enhancer.CountGrayLevels | Main.java:95-101 | the counting loops produce a fresh array equal to the histogram of the image's pixels in row-major order |
| Enhancer.CountRow | Main.java:97-100 | the inner counting loop turns the histogram of the rows above y into the histogram of the rows up to and including y |
| Enhancer.BuildLookupTable | Main.java:117-120 | the table loop produces a fresh array equal to the lookup table of the cumulative counts |
| Enhancer.MapPixels | Main.java:122-129 | the output loops set every pixel (x, y) of the output to the neutral gray of the level of source pixel (x, y), and change nothing else |
| Enhancer.ImageEnhancer.constructor | Main.java:73-84 | keeps the given image, allocates two zeroed 256-entry arrays, and has no enhanced image yet |
| Enhancer.ImageEnhancer.CalculateHistogram | Main.java:94-102 | replaces the histogram by a fresh array holding the histogram of the original image; nothing else changes |
| Enhancer.ImageEnhancer.CalculateCumulativeHistogram | Main.java:104-109 | overwrites the cumulative array in place with the prefix sums of the histogram; the entries never decrease, end at the histogram total, and stay in [0, width * height], so no Java `int` overflow |
| Enhancer.ImageEnhancer.EqualizeHistogram | Main.java:111-130 | both histograms recomputed; a fresh image of the same size whose pixel (x, y) is the neutral gray of the equalized level of the original pixel's gray level; the original image is unchanged |
| Enhancer.ImageEnhancer.ApplyFuzzyEnhancement | Main.java:132-150 | a fresh image of the same size whose pixel (x, y) is the neutral gray of the fuzzy level of the original pixel's intensity under 75 / 75 / 150 / 150; histograms and original unchanged |
| Enhancer.ImageEnhancer.SaveEnhancedImage | Main.java:172-173 | refused with the state error "Run enhancement first." exactly when no enhanced image exists |

## Left out

- Pixels.Gray: computes the luma with exact rational weights instead of Java `double`. The double expression is one lower for 3464 of the 2^24 colours, all of them colours whose exact luma is an integer. For example (1, 1, 1) gives 0 in double, because 0.299 + 0.587 + 0.114 is just below 1 there, but 1 in the model.
- Pixels.GrayOfGrayPixel: holds for the exact luma only. In Java `double` a neutral pixel of level v gets gray level v - 1 at 65 of the 256 levels: 1, 2, 4, 8, 11, 13, 16, 22, 26, 27, 32, 39, 44, 51, 52, 54, 57, 59, 61, 64, 78, 81, 88, 91, 95, 101, 102, 104, 108, 114, 115, 118, 122, 127, 128, 143, 149, 156, 157, 162, 169, 175, 176, 182, 183, 190, 195, 202, 203, 204, 208, 209, 216, 223, 225, 228, 230, 235, 236, 239, 241, 244, 249, 251 and 254.
- Enhancer.BuildLookupTable: computes `255 * C / total` exactly instead of in `float`. Single-precision rounding of the quotient may make an intermediate entry differ by one for large images. The last entry is 255 either way, because `C / total` is then exactly 1.
- Fuzzy.FuzzyLevel: blends in exact rationals instead of `double`. For the fixed thresholds the factors 1.5, 1.2 and 0.9 truncate to the same integers in double for every intensity in [0, 255].
- Enhancer.ImageEnhancer.constructor: takes an already decoded image. Resolving the working directory, creating the `output` directory, the missing-file `IOException` and `ImageIO.read` are file-system I/O and are not modelled. A decoded image is never empty, so the constructor requires width and height of at least 1. It also requires at most 2^31 - 1 pixels, which a Java `int`-indexed raster implies.
- Enhancer.ImageEnhancer.SaveEnhancedImage: models only the null check and its `IllegalStateException`. Writing the PNG with `ImageIO.write`, and its `IOException`, are file I/O.
- The packing of pixels into `int` RGB values (`getRGB`, `setRGB`, `new Color(int)`) is not modelled: images are arrays of channel triples.
- The pixel loops of `calculateHistogram`, of the table and of the two output passes are written as the module-level methods `CountGrayLevels` (with its inner loop in `CountRow`), `BuildLookupTable` and `MapPixels`. The class methods call them. `MapPixels` is shared by both enhancements and takes the per-pixel level as a function.
- The four threshold constants are a `Thresholds` record, so the interpolating branches can be stated in general. The enhancer always uses `SourceThresholds`.
- `getEnhancedImage` is a plain getter: the field `enhancedImage` is read directly.
- `displayHistogram`, the Swing user interface, the `Main` entry point and console output are presentation and I/O, and are not part of this model.
