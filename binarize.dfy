/**
 * Thresholding of one tile's RGBA pixel buffer: a luminance histogram, Otsu's threshold,
 * and the in-place rewrite of R, G and B to black or white.
 */
module Binarize {
  import opened Otsu
  import opened Images

  /** Luminance 0.299 R + 0.587 G + 0.114 B rounded to the nearest integer, in exact arithmetic. */
  function Lum(r: byte, g: byte, b: byte): (l: int)
    ensures 0 <= l < Bins
  {
    (299 * r + 587 * g + 114 * b + 500) / 1000
  }

  /** The luminance of pixel p of an RGBA buffer, the pixel at bytes 4p .. 4p+3. */
  function LumAt(data: seq<byte>, p: nat): nat
    requires 4 * p + 3 < |data|
  {
    Lum(data[4 * p], data[4 * p + 1], data[4 * p + 2])
  }

  /** The 256-bin luminance histogram of the first n pixels of a buffer. */
  function HistogramOf(data: seq<byte>, n: nat): (h: seq<nat>)
    requires 4 * n <= |data|
    ensures |h| == Bins
  {
    if n == 0 then seq(Bins, _ => 0)
    else
      var h := HistogramOf(data, n - 1);
      var l := LumAt(data, n - 1);
      h[l := h[l] + 1]
  }

  /** The histogram of a whole buffer: 256 bins holding one count per pixel. */
  function Histogram(data: seq<byte>): (h: seq<nat>)
    requires |data| % 4 == 0
    ensures |h| == Bins && Sum(h) == |data| / 4
  {
    HistogramMass(data, |data| / 4);
    HistogramOf(data, |data| / 4)
  }

  /** The number of pixels among the first n whose luminance is v. */
  function Count(data: seq<byte>, n: nat, v: nat): nat
    requires 4 * n <= |data|
  {
    if n == 0 then 0 else Count(data, n - 1, v) + (if LumAt(data, n - 1) == v then 1 else 0)
  }

  /** Bin v of the histogram of the first n pixels counts exactly the pixels of luminance v. */
  lemma {:induction false} HistogramCounts(data: seq<byte>, n: nat, v: nat)
    requires 4 * n <= |data| && v < Bins
    ensures HistogramOf(data, n)[v] == Count(data, n, v)
  {
    if n > 0 {
      HistogramCounts(data, n - 1, v);
    }
  }

  /** Counting one more pixel in a bin adds one to the histogram's mass. */
  lemma {:induction false} SumIncrement(s: seq<nat>, v: nat)
    requires v < |s|
    ensures Sum(s[v := s[v] + 1]) == Sum(s) + 1
  {
    var last := |s| - 1;
    var s' := s[v := s[v] + 1];
    if v == last {
      assert s'[..last] == s[..last];
    } else {
      assert s'[..last] == s[..last][v := s[v] + 1];
      SumIncrement(s[..last], v);
    }
  }

  /** The bins of the histogram of n pixels add up to n. */
  lemma {:induction false} HistogramMass(data: seq<byte>, n: nat)
    requires 4 * n <= |data|
    ensures Sum(HistogramOf(data, n)) == n
  {
    if n == 0 {
      var z: seq<nat> := seq(Bins, _ => 0);
      ZeroSum(z);
    } else {
      HistogramMass(data, n - 1);
      SumIncrement(HistogramOf(data, n - 1), LumAt(data, n - 1));
    }
  }

  lemma {:induction false} ZeroSum(s: seq<nat>)
    requires forall i :: 0 <= i < |s| ==> s[i] == 0
    ensures Sum(s) == 0
  {
    if s != [] {
      ZeroSum(s[..|s| - 1]);
    }
  }

  /** Every pixel among the first n is counted in the bin of its luminance. */
  lemma {:induction false} CountedInItsBin(data: seq<byte>, n: nat, p: nat)
    requires 4 * n <= |data| && p < n
    ensures HistogramOf(data, n)[LumAt(data, p)] > 0
  {
    if p < n - 1 {
      CountedInItsBin(data, n - 1, p);
    }
  }

  /** Counting pixel p increments the bin of its luminance. */
  lemma HistogramStep(data: seq<byte>, p: nat)
    requires 4 * p + 3 < |data|
    ensures var h := HistogramOf(data, p);
      HistogramOf(data, p + 1) == h[LumAt(data, p) := h[LumAt(data, p)] + 1]
  {
  }

  /** The histogram loop of bitmapToTileBlob: one increment per pixel, stride 4. */
  method BuildHistogram(data: array<byte>) returns (hist: seq<nat>)
    requires data.Length % 4 == 0
    ensures hist == Histogram(data[..])
    ensures |hist| == Bins && Sum(hist) == data.Length / 4
  {
    var bins := new nat[Bins](_ => 0);
    assert bins[..] == HistogramOf(data[..], 0);
    ghost var n := data.Length / 4;
    assert data.Length == 4 * n;
    var i := 0;
    ghost var p := 0;
    while i < data.Length
      invariant p <= n && i == 4 * p
      invariant bins[..] == HistogramOf(data[..], p)
    {
      assert p < n;
      var lum := Lum(data[i], data[i + 1], data[i + 2]);
      assert lum == LumAt(data[..], p);
      ghost var counted := bins[..];
      bins[lum] := bins[lum] + 1;
      assert bins[..] == counted[lum := counted[lum] + 1];
      HistogramStep(data[..], p);
      i, p := i + 4, p + 1;
    }
    assert p == n;
    hist := bins[..];
    HistogramMass(data[..], n);
  }

  /** The value R, G and B of pixel p take: white when its luminance reaches the cutoff, black otherwise. */
  function Level(data: seq<byte>, cutoff: int, p: nat): byte
    requires 4 * p + 3 < |data|
  {
    if LumAt(data, p) >= cutoff then 255 else 0
  }

  /**
   * The buffer after binarisation at a cutoff: R, G and B of each pixel become its Level;
   * alpha is kept.
   */
  function Binarized(data: seq<byte>, cutoff: int): (out: seq<byte>)
    requires |data| % 4 == 0
    ensures |out| == |data|
  {
    seq(|data|, i requires 0 <= i < |data| =>
      if i % 4 == 3 then data[i] else Level(data, cutoff, i / 4))
  }

  /** The four bytes of pixel p after binarisation. */
  lemma PixelBytes(data: seq<byte>, cutoff: int, p: nat)
    requires |data| % 4 == 0 && 4 * p + 3 < |data|
    ensures var out := Binarized(data, cutoff);
      var v := Level(data, cutoff, p);
      out[4 * p] == v && out[4 * p + 1] == v && out[4 * p + 2] == v && out[4 * p + 3] == data[4 * p + 3]
  {
    assert (4 * p + 1) / 4 == p && (4 * p + 2) / 4 == p && (4 * p + 3) % 4 == 3;
  }

  /** The first p pixels of out hold the binarised bytes of before. */
  ghost predicate BinarizedUpTo(before: seq<byte>, out: seq<byte>, cutoff: int, p: nat)
    requires |out| == |before| && 4 * p <= |before|
  {
    forall q :: 0 <= q < p ==>
      var v := Level(before, cutoff, q);
      out[4 * q] == v && out[4 * q + 1] == v && out[4 * q + 2] == v && out[4 * q + 3] == before[4 * q + 3]
  }

  /** Writing the level of pixel p into R, G and B extends the binarised prefix by one pixel. */
  lemma UpToStep(before: seq<byte>, s: seq<byte>, out: seq<byte>, cutoff: int, p: nat)
    requires |s| == |before| && 4 * p + 3 < |before|
    requires BinarizedUpTo(before, s, cutoff, p) && s[4 * p + 3] == before[4 * p + 3]
    requires var v := Level(before, cutoff, p);
      out == s[4 * p := v][4 * p + 1 := v][4 * p + 2 := v]
    ensures BinarizedUpTo(before, out, cutoff, p + 1)
  {
  }

  /** The binarisation loop of bitmapToTileBlob, rewriting the buffer in place. */
  method Binarize(data: array<byte>, cutoff: int)
    requires data.Length % 4 == 0
    modifies data
    ensures data[..] == Binarized(old(data[..]), cutoff)
  {
    ghost var before := data[..];
    ghost var n := data.Length / 4;
    assert data.Length == 4 * n;
    var i := 0;
    ghost var p := 0;
    while i < data.Length
      invariant p <= n && i == 4 * p
      invariant BinarizedUpTo(before, data[..], cutoff, p)
      invariant forall k :: i <= k < data.Length ==> data[k] == before[k]
    {
      ghost var s := data[..];
      var lum := Lum(data[i], data[i + 1], data[i + 2]);
      var v := if lum >= cutoff then 255 else 0;
      assert v == Level(before, cutoff, p);
      data[i], data[i + 1], data[i + 2] := v, v, v;
      UpToStep(before, s, data[..], cutoff, p);
      i, p := i + 4, p + 1;
    }
    PixelwiseBinarized(before, data[..], cutoff);
  }

  /** A buffer whose every pixel has the binarised bytes is the binarised buffer. */
  lemma PixelwiseBinarized(before: seq<byte>, out: seq<byte>, cutoff: int)
    requires |before| % 4 == 0 && |out| == |before|
    requires BinarizedUpTo(before, out, cutoff, |before| / 4)
    ensures out == Binarized(before, cutoff)
  {
    var m := |before| / 4;
    assert |before| == 4 * m;
    forall k | 0 <= k < |out|
      ensures out[k] == Binarized(before, cutoff)[k]
    {
      var q, j := k / 4, k % 4;
      assert k == 4 * q + j && 0 <= j < 4;
      assert q < m && 4 * q + 3 < |before|;
      PixelBytes(before, cutoff, q);
    }
  }

  /** bitmapToTileBlob with thresholding: histogram, Otsu's threshold, then binarisation with lum >= thresh. */
  method ThresholdTile(data: array<byte>, total: nat) returns (thresh: nat)
    requires data.Length == 4 * total
    modifies data
    ensures thresh == ThresholdOf(Histogram(old(data[..])), total)
    ensures data[..] == Binarized(old(data[..]), thresh)
  {
    var hist := BuildHistogram(data);
    thresh := OtsuThreshold(hist, total);
    Binarize(data, thresh);
  }

  // ---------------------------------------------------------------------------
  // Properties

  /** A grey pixel (v, v, v) has luminance v. */
  lemma GreyLum(v: byte)
    ensures Lum(v, v, v) == v
  {
    assert 299 * v + 587 * v + 114 * v + 500 == 1000 * v + 500;
  }

  /** Binarisation is idempotent at every cutoff: its output is already black and white. */
  lemma BinarizeIdempotent(data: seq<byte>, cutoff: int)
    requires |data| % 4 == 0
    ensures Binarized(Binarized(data, cutoff), cutoff) == Binarized(data, cutoff)
  {
    var once := Binarized(data, cutoff);
    forall q | 0 <= q < |once| / 4
      ensures Level(once, cutoff, q) == once[4 * q] == once[4 * q + 1] == once[4 * q + 2]
    {
      PixelBytes(data, cutoff, q);
      GreyLum(once[4 * q]);
    }
    assert BinarizedUpTo(once, once, cutoff, |once| / 4);
    PixelwiseBinarized(once, once, cutoff);
  }

  /** The histogram of a two-level buffer has its mass in two bins and the pixel count as total. */
  ghost predicate TwoLevel(data: seq<byte>, a: nat, b: nat)
    requires |data| % 4 == 0
  {
    var h := Histogram(data);
    a < b < Bins && h[a] > 0 && h[b] > 0
    && forall v :: 0 <= v < Bins && v != a && v != b ==> h[v] == 0
  }

  /** Every pixel of a two-level buffer has luminance a or b, and Otsu's threshold is a. */
  lemma TwoLevelThreshold(data: seq<byte>, a: nat, b: nat)
    requires |data| % 4 == 0 && TwoLevel(data, a, b)
    ensures forall p :: 0 <= p < |data| / 4 ==> LumAt(data, p) == a || LumAt(data, p) == b
    ensures ThresholdOf(Histogram(data), |data| / 4) == a
  {
    var h := Histogram(data);
    var n := |data| / 4;
    forall p | 0 <= p < n
      ensures LumAt(data, p) == a || LumAt(data, p) == b
    {
      CountedInItsBin(data, n, p);
    }
    HistogramMass(data, n);
    SparsePrefix(h, a, b, Bins - 1);
    assert h[..Bins] == h;
    TwoBinThreshold(h, n, a, b, ThresholdOf(h, n));
  }

  /**
   * As written (lum >= thresh): binarising a two-level buffer at Otsu's threshold turns
   * every pixel white, because the threshold is the lower level itself.
   */
  lemma AsWrittenWhitensTwoLevelTile(data: seq<byte>, a: nat, b: nat)
    requires |data| % 4 == 0 && TwoLevel(data, a, b)
    ensures var out := Binarized(data, ThresholdOf(Histogram(data), |data| / 4));
      forall p :: 0 <= p && 4 * p + 3 < |data| ==>
        out[4 * p] == 255 && out[4 * p + 1] == 255 && out[4 * p + 2] == 255
  {
    TwoLevelThreshold(data, a, b);
    var thresh := ThresholdOf(Histogram(data), |data| / 4);
    forall p | 0 <= p && 4 * p + 3 < |data|
      ensures Level(data, thresh, p) == 255
    {
      assert p < |data| / 4;
    }
    forall p: nat | 4 * p + 3 < |data| {
      PixelBytes(data, thresh, p);
    }
  }

  /**
   * Corrected (lum > thresh, the cutoff thresh + 1): binarising a two-level buffer turns the
   * pixels of the lower level black and those of the upper level white.
   */
  lemma CorrectedSplitsTwoLevelTile(data: seq<byte>, a: nat, b: nat)
    requires |data| % 4 == 0 && TwoLevel(data, a, b)
    ensures var out := Binarized(data, ThresholdOf(Histogram(data), |data| / 4) + 1);
      forall p :: 0 <= p && 4 * p + 3 < |data| ==>
        var v := if LumAt(data, p) == a then 0 else 255;
        out[4 * p] == v && out[4 * p + 1] == v && out[4 * p + 2] == v
  {
    TwoLevelThreshold(data, a, b);
    forall p | 0 <= p && 4 * p + 3 < |data|
      ensures LumAt(data, p) == a || LumAt(data, p) == b
    {
      assert p < |data| / 4;
    }
    forall p: nat | 4 * p + 3 < |data| {
      PixelBytes(data, a + 1, p);
    }
  }
}
