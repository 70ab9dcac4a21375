/**
 * The specification of global histogram equalization: the 256-bin histogram
 * of gray levels, its prefix sums (the cumulative histogram) and the lookup
 * table built from them, as functions on values, with the properties the
 * enhancer relies on proved about them.
 */
module Equalization {
  import opened Pixels

  /** Number of gray levels, and so of histogram bins and lookup entries. */
  const LEVELS: nat := 256

  /** Sum of a sequence of counts, accumulated from the front. */
  function Sum(s: seq<int>): int
  {
    if s == [] then 0 else Sum(s[..|s| - 1]) + s[|s| - 1]
  }

  /** Number of pixels of `ps` whose gray level is `g`, counted from the front. */
  function Occurrences(ps: seq<Rgb>, g: int): (n: nat)
    ensures n <= |ps|
  {
    if ps == [] then 0
    else (if Gray(ps[0]) == g then 1 else 0) + Occurrences(ps[1..], g)
  }

  /**
   * The histogram after visiting the pixels `ps` in order: each pixel adds one
   * to the bin of its gray level (`histogram[gray]++`), starting from 256 zeros.
   */
  function Histogram(ps: seq<Rgb>): (h: seq<int>)
    ensures |h| == LEVELS
  {
    if ps == [] then seq(LEVELS, _ => 0)
    else
      var h := Histogram(ps[..|ps| - 1]);
      var g := Gray(ps[|ps| - 1]);
      h[g := h[g] + 1]
  }

  predicate NonNegative(s: seq<int>)
  {
    forall i :: 0 <= i < |s| ==> 0 <= s[i]
  }

  predicate NonDecreasing(s: seq<int>)
  {
    forall i, j :: 0 <= i <= j < |s| ==> s[i] <= s[j]
  }

  /** The cumulative histogram: entry i is the sum of bins 0 through i. */
  function PrefixSums(h: seq<int>): (c: seq<int>)
    ensures |c| == |h|
    ensures forall i :: 0 <= i < |h| ==> c[i] == Sum(h[..i + 1])
  {
    seq(|h|, i requires 0 <= i < |h| => Sum(h[..i + 1]))
  }

  /**
   * The lookup table: entry i is 255 * C[i] / total, truncated, where C is the
   * cumulative histogram and total the number of pixels.
   */
  function Lookup(c: seq<int>, total: int): (l: seq<int>)
    requires total > 0
    ensures |l| == |c|
  {
    seq(|c|, i requires 0 <= i < |c| => 255 * c[i] / total)
  }

  /** The whole equalization table for an image whose pixels are `ps`. */
  function EqualizationTable(ps: seq<Rgb>): (l: seq<int>)
    requires |ps| > 0
    ensures |l| == LEVELS
  {
    Lookup(PrefixSums(Histogram(ps)), |ps|)
  }

  /**
   * The level an equalized image gives to pixels of gray level g: the table
   * entry, which the clamp in the output loop leaves as it is.
   */
  function EqualizedLevel(ps: seq<Rgb>, g: Channel): (v: Channel)
    requires |ps| > 0
    ensures v == Clamp(EqualizationTable(ps)[g])
  {
    EqualizationTableProperties(ps);
    EqualizationTable(ps)[g]
  }

  /**
   * Equalization preserves the order of gray levels: a pixel at least as
   * bright as another stays at least as bright after remapping.
   */
  lemma EqualizationPreservesOrder(ps: seq<Rgb>, g1: Channel, g2: Channel)
    requires |ps| > 0 && g1 <= g2
    ensures EqualizedLevel(ps, g1) <= EqualizedLevel(ps, g2)
  {
    EqualizationTableProperties(ps);
  }

  // ---------------------------------------------------------------------------
  // Histogram

  lemma {:induction false} OccurrencesAppend(ps: seq<Rgb>, p: Rgb, g: int)
    ensures Occurrences(ps + [p], g) == Occurrences(ps, g) + (if Gray(p) == g then 1 else 0)
  {
    if ps != [] {
      assert (ps + [p])[1..] == ps[1..] + [p];
      OccurrencesAppend(ps[1..], p, g);
    }
  }

  /** Visiting one more pixel adds one to the bin of its gray level. */
  lemma HistogramAppend(ps: seq<Rgb>, p: Rgb)
    ensures Histogram(ps + [p]) == Histogram(ps)[Gray(p) := Histogram(ps)[Gray(p)] + 1]
  {
    assert (ps + [p])[..|ps|] == ps;
  }

  /** Bin g of the histogram counts exactly the pixels whose gray level is g. */
  lemma {:induction false} HistogramCounts(ps: seq<Rgb>, g: int)
    requires 0 <= g < LEVELS
    ensures Histogram(ps)[g] == Occurrences(ps, g)
  {
    if ps != [] {
      var init, last := ps[..|ps| - 1], ps[|ps| - 1];
      HistogramCounts(init, g);
      assert init + [last] == ps;
      OccurrencesAppend(init, last, g);
    }
  }

  lemma {:induction false} HistogramNonNegative(ps: seq<Rgb>)
    ensures NonNegative(Histogram(ps))
  {
    forall g | 0 <= g < LEVELS
      ensures 0 <= Histogram(ps)[g]
    {
      HistogramCounts(ps, g);
    }
  }

  /** Raising one entry raises the sum by the same amount. */
  lemma {:induction false} SumUpdate(s: seq<int>, k: int, v: int)
    requires 0 <= k < |s|
    ensures Sum(s[k := v]) == Sum(s) - s[k] + v
  {
    var n := |s| - 1;
    if k < n {
      assert s[k := v][..n] == s[..n][k := v];
      SumUpdate(s[..n], k, v);
    } else {
      assert s[k := v][..n] == s[..n];
    }
  }

  lemma {:induction false} SumZeros(n: nat)
    ensures Sum(seq(n, _ => 0)) == 0
  {
    if n > 0 {
      assert seq(n, _ => 0)[..n - 1] == seq(n - 1, _ => 0);
      SumZeros(n - 1);
    }
  }

  /** The 256 bins together count every pixel once. */
  lemma {:induction false} HistogramTotal(ps: seq<Rgb>)
    ensures Sum(Histogram(ps)) == |ps|
  {
    if ps == [] {
      SumZeros(LEVELS);
    } else {
      var init := ps[..|ps| - 1];
      HistogramTotal(init);
      var h, g := Histogram(init), Gray(ps[|ps| - 1]);
      SumUpdate(h, g, h[g] + 1);
    }
  }

  // ---------------------------------------------------------------------------
  // Cumulative histogram

  lemma {:induction false} SumPrefixMonotone(h: seq<int>, i: nat, j: nat)
    requires NonNegative(h)
    requires i <= j <= |h|
    ensures Sum(h[..i]) <= Sum(h[..j])
    decreases j - i
  {
    if i < j {
      SumPrefixMonotone(h, i, j - 1);
      assert h[..j][..j - 1] == h[..j - 1];
    }
  }

  /** Entry i of the cumulative histogram adds bin i to entry i - 1. */
  lemma PrefixSumsStep(h: seq<int>, i: nat)
    requires 0 < i < |h|
    ensures PrefixSums(h)[i] == PrefixSums(h)[i - 1] + h[i]
  {
    assert h[..i + 1][..i] == h[..i];
  }

  /** The cumulative histogram starts at the first bin and ends at the sum. */
  lemma PrefixSumsEnds(h: seq<int>)
    requires |h| > 0
    ensures PrefixSums(h)[0] == h[0]
    ensures PrefixSums(h)[|h| - 1] == Sum(h)
  {
    var first := h[..1];
    assert first[..0] == [] && first[0] == h[0];
    assert Sum(first) == Sum(first[..0]) + first[0];
    assert h[..|h|] == h;
  }

  /**
   * Over non-negative counts the cumulative histogram starts at the first bin,
   * never decreases, stays within [0, total] and ends at the total count.
   */
  lemma CumulativeProperties(h: seq<int>)
    requires NonNegative(h)
    requires |h| > 0
    ensures PrefixSums(h)[0] == h[0]
    ensures NonDecreasing(PrefixSums(h))
    ensures PrefixSums(h)[|h| - 1] == Sum(h)
    ensures forall i :: 0 <= i < |h| ==> 0 <= PrefixSums(h)[i] <= Sum(h)
  {
    var c := PrefixSums(h);
    PrefixSumsEnds(h);
    PrefixSumsNonDecreasing(h);
    forall i | 0 <= i < |h|
      ensures 0 <= c[i] <= Sum(h)
    {
      assert c[0] <= c[i] <= c[|h| - 1];
    }
  }

  lemma PrefixSumsNonDecreasing(h: seq<int>)
    requires NonNegative(h)
    ensures NonDecreasing(PrefixSums(h))
  {
    var c := PrefixSums(h);
    forall i, j | 0 <= i <= j < |h|
      ensures c[i] <= c[j]
    {
      SumPrefixMonotone(h, i + 1, j + 1);
    }
  }

  // ---------------------------------------------------------------------------
  // Lookup table

  /** Multiplying by a positive factor cancels in a strict comparison. */
  lemma MulCancel(d: int, x: int, y: int)
    requires d > 0 && d * x < d * y
    ensures x < y
  {
  }

  lemma DivMonotone(a: int, b: int, d: int)
    requires d > 0 && a <= b
    ensures a / d <= b / d
  {
    var qa, qb := a / d, b / d;
    assert d * qa <= a && b < d * qb + d;
    assert d * qb + d == d * (qb + 1);
    MulCancel(d, qa, qb + 1);
  }

  /** A multiple of d divided by d gives back the factor. */
  lemma DivMultiple(m: int, d: int)
    requires d > 0
    ensures (m * d) / d == m
  {
    var q := (m * d) / d;
    assert d * q <= m * d < d * q + d;
    assert m * d + d == d * (m + 1) && d * q + d == d * (q + 1);
    MulCancel(d, q, m + 1);
    MulCancel(d, m, q + 1);
  }

  /**
   * For cumulative counts that rise from 0 to the total, every table entry is a
   * level in [0, 255], the table never decreases and its last entry is 255.
   */
  lemma LookupProperties(c: seq<int>, total: int)
    requires total > 0 && |c| > 0
    requires NonDecreasing(c)
    requires forall i :: 0 <= i < |c| ==> 0 <= c[i] <= total
    requires c[|c| - 1] == total
    ensures forall i :: 0 <= i < |c| ==> 0 <= Lookup(c, total)[i] <= 255
    ensures NonDecreasing(Lookup(c, total))
    ensures Lookup(c, total)[|c| - 1] == 255
  {
    var l := Lookup(c, total);
    DivMultiple(255, total);
    forall i | 0 <= i < |c|
      ensures 0 <= l[i] <= 255
    {
      DivMonotone(0, 255 * c[i], total);
      DivMonotone(255 * c[i], 255 * total, total);
    }
    forall i, j | 0 <= i <= j < |c|
      ensures l[i] <= l[j]
    {
      DivMonotone(255 * c[i], 255 * c[j], total);
    }
  }

  /**
   * The equalization table of any non-empty image holds levels in [0, 255],
   * never decreases and maps the top level to 255, so clamping its entries
   * changes nothing.
   */
  lemma EqualizationTableProperties(ps: seq<Rgb>)
    requires |ps| > 0
    ensures forall i :: 0 <= i < LEVELS ==> 0 <= EqualizationTable(ps)[i] <= 255
    ensures NonDecreasing(EqualizationTable(ps))
    ensures EqualizationTable(ps)[LEVELS - 1] == 255
  {
    var h := Histogram(ps);
    HistogramNonNegative(ps);
    HistogramTotal(ps);
    CumulativeProperties(h);
    LookupProperties(PrefixSums(h), |ps|);
  }

  /**
   * An image of a single gray level g (a histogram with one spike) maps that
   * level to 255.
   */
  lemma UniformImageMapsToWhite(ps: seq<Rgb>, g: Channel)
    requires |ps| > 0
    requires forall k :: 0 <= k < |ps| ==> Gray(ps[k]) == g
    ensures EqualizationTable(ps)[g] == 255
  {
    var h := Histogram(ps);
    HistogramNonNegative(ps);
    HistogramTotal(ps);
    forall j | 0 <= j < LEVELS && j != g
      ensures h[j] == 0
    {
      HistogramCounts(ps, j);
      OccurrencesNone(ps, j);
    }
    SumOutsideZero(h, g);
    var c := PrefixSums(h);
    assert c[g] == |ps|;
    DivMultiple(255, |ps|);
    assert Lookup(c, |ps|)[g] == 255 * |ps| / |ps|;
  }

  lemma {:induction false} OccurrencesNone(ps: seq<Rgb>, j: int)
    requires forall k :: 0 <= k < |ps| ==> Gray(ps[k]) != j
    ensures Occurrences(ps, j) == 0
  {
    if ps != [] {
      OccurrencesNone(ps[1..], j);
    }
  }

  /** If every bin after g is empty, the prefix sum up to g is the whole sum. */
  lemma {:induction false} SumOutsideZero(h: seq<int>, g: nat)
    requires g < |h|
    requires forall j :: g < j < |h| ==> h[j] == 0
    ensures Sum(h[..g + 1]) == Sum(h)
    decreases |h|
  {
    if g + 1 < |h| {
      var n := |h| - 1;
      assert h[..n][..g + 1] == h[..g + 1];
      SumOutsideZero(h[..n], g);
    } else {
      assert h[..g + 1] == h;
    }
  }
}
