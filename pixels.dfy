/**
 * Pixels of the enhancer's images: RGB triples of 8-bit channels, and the two
 * per-pixel scalars the enhancer derives from them (the luma-weighted gray
 * level used by histogram equalization, and the plain channel average used by
 * fuzzy enhancement).
 */
module Pixels {

  /** An 8-bit colour channel, and every level the enhancer writes back. */
  type Channel = x: int | 0 <= x <= 255

  /** One pixel, as `java.awt.Color` unpacks it from `getRGB`. */
  datatype Rgb = Rgb(red: Channel, green: Channel, blue: Channel)

  /** The neutral pixel with all three channels equal to `v` (`new Color(v, v, v)`). */
  function GrayPixel(v: Channel): (p: Rgb)
    ensures p.red == v && p.green == v && p.blue == v
  {
    Rgb(v, v, v)
  }

  function Min3(a: int, b: int, c: int): int
  {
    if a <= b && a <= c then a else if b <= c then b else c
  }

  function Max3(a: int, b: int, c: int): int
  {
    if a >= b && a >= c then a else if b >= c then b else c
  }

  /**
   * `getGrayscale`: the luma 0.299 R + 0.587 G + 0.114 B truncated to an
   * integer, computed with exact rational weights. The weights sum to one, so
   * the level lies between the darkest and the brightest channel, and is
   * therefore a valid index into a 256-bin histogram.
   */
  function Gray(p: Rgb): (g: Channel)
    ensures Min3(p.red, p.green, p.blue) <= g <= Max3(p.red, p.green, p.blue)
    ensures 1000 * g <= 299 * p.red + 587 * p.green + 114 * p.blue < 1000 * g + 1000
  {
    var lo, hi := Min3(p.red, p.green, p.blue), Max3(p.red, p.green, p.blue);
    var w := 299 * p.red + 587 * p.green + 114 * p.blue;
    assert 1000 * lo <= w <= 1000 * hi;
    w / 1000
  }

  /** A neutral pixel keeps its level under `Gray`. */
  lemma GrayOfGrayPixel(v: Channel)
    ensures Gray(GrayPixel(v)) == v
  {
    var p := GrayPixel(v);
    assert Min3(p.red, p.green, p.blue) == v == Max3(p.red, p.green, p.blue);
  }

  /**
   * The fuzzy enhancer's intensity: Java's integer division `(R + G + B) / 3`
   * (the sum is never negative, so truncation and flooring agree).
   */
  function Intensity(p: Rgb): (i: Channel)
    ensures 3 * i <= p.red + p.green + p.blue < 3 * i + 3
  {
    (p.red + p.green + p.blue) / 3
  }

  /** `Math.min(255, Math.max(0, v))`. */
  function Clamp(v: int): (r: Channel)
    ensures 0 <= v <= 255 ==> r == v
    ensures v < 0 ==> r == 0
    ensures v > 255 ==> r == 255
  {
    if v < 0 then 0 else if v > 255 then 255 else v
  }
}
