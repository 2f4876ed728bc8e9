/** Axis grid planner: where the fixed-size tiles go along one axis of an image. */
module Grid {

  /** Math.ceil(n / d) for a non-negative n and a positive d. */
  function CeilDiv(n: nat, d: nat): nat
    requires d > 0
  {
    (n + d - 1) / d
  }

  /** CeilDiv(n, d) is the least q with q * d >= n. */
  lemma CeilDivBounds(n: nat, d: nat)
    requires d > 0
    ensures CeilDiv(n, d) * d >= n
    ensures CeilDiv(n, d) > 0 ==> (CeilDiv(n, d) - 1) * d < n
  {
    DivMod(n + d - 1, d);
  }

  /** Math.round(n / d) for a non-negative n: the nearest integer, halves rounded up. */
  function RoundDiv(n: nat, d: nat): nat
    requires d > 0
  {
    (2 * n + d) / (2 * d)
  }

  /** RoundDiv(n, d) is the integer r with r - 1/2 <= n / d < r + 1/2. */
  lemma RoundDivNearest(n: nat, d: nat)
    requires d > 0
    ensures 2 * RoundDiv(n, d) * d <= 2 * n + d < 2 * (RoundDiv(n, d) + 1) * d
  {
    DivMod(2 * n + d, 2 * d);
  }

  /** The i-th coordinate of a grid of count >= 2 tiles spread over [0, length - tileSize]. */
  function Coord(i: nat, length: nat, tileSize: nat, count: nat): nat
    requires 2 <= count && tileSize <= length
  {
    RoundDiv(i * (length - tileSize), count - 1)
  }

  /**
   * The coordinates computeCoords returns: one tile when ceil(length / tileSize) == 1,
   * otherwise ceil(length / tileSize) rounded, evenly spaced positions.
   */
  function AxisCoords(length: nat, tileSize: nat): (coords: seq<nat>)
    requires tileSize > 0
    ensures |coords| == CeilDiv(length, tileSize)
  {
    var count := CeilDiv(length, tileSize);
    if count == 1 then [0]
    else if count == 0 then []
    else
      CountBound(length, tileSize, count);
      seq(count, i requires 0 <= i < count => Coord(i, length, tileSize, count))
  }

  /** computeCoords: pushes the rounded positions one by one. */
  method ComputeCoords(length: nat, tileSize: nat) returns (coords: seq<nat>)
    requires tileSize > 0
    ensures coords == AxisCoords(length, tileSize)
  {
    var count := (length + tileSize - 1) / tileSize;
    if count == 1 {
      return [0];
    }
    ghost var expected := AxisCoords(length, tileSize);
    assert |expected| == count;
    coords := [];
    for i := 0 to count
      invariant coords == expected[..i]
    {
      CountBound(length, tileSize, count);
      coords := coords + [RoundDiv(i * (length - tileSize), count - 1)];
    }
    assert expected[..count] == expected;
  }

  // ---------------------------------------------------------------------------
  // Arithmetic helpers

  lemma DivMod(a: nat, m: nat)
    requires m > 0
    ensures a == m * (a / m) + a % m && 0 <= a % m < m
  {
  }

  /** Euclidean division is determined by any quotient/remainder pair. */
  lemma DivUnique(a: nat, m: nat, q: nat, r: nat)
    requires m > 0 && r < m && a == m * q + r
    ensures a / m == q
  {
    DivMod(a, m);
    MulMonoIf(a / m + 1, q, m);
    MulMonoIf(q + 1, a / m, m);
  }

  lemma MulMono(x: nat, y: nat, m: nat)
    requires x <= y
    ensures m * x <= m * y
  {
  }

  lemma MulMonoIf(x: int, y: int, m: nat)
    ensures x <= y ==> m * x <= m * y
  {
    if x <= y {
      MulMono(0, y - x, m);
      assert m * y == m * x + m * (y - x);
    }
  }

  /** Division by a positive constant is monotone. */
  lemma DivMono(a: nat, b: nat, m: nat)
    requires m > 0 && a <= b
    ensures a / m <= b / m
  {
    DivMod(a, m);
    DivMod(b, m);
    if a / m > b / m {
      MulMono(b / m + 1, a / m, m);
    }
  }

  /** Adding k multiples of m to the dividend adds k to the quotient. */
  lemma DivShift(a: nat, m: nat, k: nat)
    requires m > 0
    ensures (a + m * k) / m == a / m + k
  {
    DivMod(a, m);
    DivUnique(a + m * k, m, a / m + k, a % m);
  }

  /**
   * With count = ceil(length / tileSize) >= 2, the span length - tileSize is at least
   * count - 1 and at most (count - 1) * tileSize: consecutive rounded positions are
   * between 1 and tileSize apart.
   */
  lemma CountBound(length: nat, tileSize: nat, count: nat)
    requires tileSize > 0 && count == CeilDiv(length, tileSize) && count >= 2
    ensures tileSize < length
    ensures count - 1 <= length - tileSize <= (count - 1) * tileSize
  {
    CeilDivBounds(length, tileSize);
    MulMono(1, count - 1, tileSize);
    assert (count - 2) * tileSize >= count - 2 by { MulMono(1, tileSize, count - 2); }
    assert (count - 1) * tileSize == (count - 2) * tileSize + tileSize;
  }

  // ---------------------------------------------------------------------------
  // Properties of the planner

  /** Exactly one tile, at 0, precisely when the image is not longer than a tile. */
  lemma SingleTileIff(length: nat, tileSize: nat)
    requires tileSize > 0 && length > 0
    ensures AxisCoords(length, tileSize) == [0] <==> length <= tileSize
  {
    var count := CeilDiv(length, tileSize);
    if length <= tileSize {
      assert count * tileSize >= length;
      assert count >= 1;
      if count >= 2 {
        CountBound(length, tileSize, count);
      }
    } else {
      assert |AxisCoords(length, tileSize)| >= 2;
    }
  }

  /** With two or more tiles the first is at 0 and the last ends exactly at the image border. */
  lemma Endpoints(length: nat, tileSize: nat)
    requires tileSize > 0 && CeilDiv(length, tileSize) >= 2
    ensures var coords := AxisCoords(length, tileSize);
      coords[0] == 0 && coords[|coords| - 1] == length - tileSize
  {
    var count := CeilDiv(length, tileSize);
    CountBound(length, tileSize, count);
    var d := count - 1;
    var span := length - tileSize;
    DivUnique(d, 2 * d, 0, d);
    assert 2 * (d * span) + d == 2 * d * span + d;
    DivUnique(2 * (d * span) + d, 2 * d, span, d);
  }

  /** Consecutive coordinates rise by at least 1 and at most tileSize (no duplicates, no gaps). */
  lemma Step(length: nat, tileSize: nat, i: nat)
    requires tileSize > 0
    requires i + 1 < |AxisCoords(length, tileSize)|
    ensures var coords := AxisCoords(length, tileSize);
      coords[i] < coords[i + 1] <= coords[i] + tileSize
  {
    var count := CeilDiv(length, tileSize);
    CountBound(length, tileSize, count);
    var d := count - 1;
    var span := length - tileSize;
    var a := 2 * (i * span) + d;
    assert AxisCoords(length, tileSize)[i] == a / (2 * d);
    assert 2 * ((i + 1) * span) + d == a + 2 * span;
    assert AxisCoords(length, tileSize)[i + 1] == (a + 2 * span) / (2 * d);
    StepBounds(a, d, span, tileSize);
  }

  /** Adding 2 * span to the numerator of a rounding by d moves it by 1 to tileSize. */
  lemma StepBounds(a: nat, d: nat, span: nat, tileSize: nat)
    requires 0 < d <= span <= d * tileSize
    ensures a / (2 * d) < (a + 2 * span) / (2 * d) <= a / (2 * d) + tileSize
  {
    DivMono(a + 2 * d * 1, a + 2 * span, 2 * d);
    DivShift(a, 2 * d, 1);
    assert 2 * span <= 2 * d * tileSize;
    DivMono(a + 2 * span, a + 2 * d * tileSize, 2 * d);
    DivShift(a, 2 * d, tileSize);
  }

  /** The coordinates are strictly increasing. */
  lemma {:induction false} Increasing(length: nat, tileSize: nat, i: nat, j: nat)
    requires tileSize > 0
    requires i < j < |AxisCoords(length, tileSize)|
    ensures AxisCoords(length, tileSize)[i] < AxisCoords(length, tileSize)[j]
    decreases j - i
  {
    Step(length, tileSize, j - 1);
    if i < j - 1 {
      Increasing(length, tileSize, i, j - 1);
    }
  }

  /** Every tile lies inside the image when the image is longer than one tile. */
  lemma InRange(length: nat, tileSize: nat, i: nat)
    requires tileSize > 0 && CeilDiv(length, tileSize) >= 2
    requires i < |AxisCoords(length, tileSize)|
    ensures AxisCoords(length, tileSize)[i] + tileSize <= length
  {
    var coords := AxisCoords(length, tileSize);
    Endpoints(length, tileSize);
    if i < |coords| - 1 {
      Increasing(length, tileSize, i, |coords| - 1);
    }
  }

  // ---------------------------------------------------------------------------
  // Coverage

  /** No two neighbouring tiles leave a gap. */
  ghost predicate GapFree(s: seq<nat>, tileSize: nat)
  {
    forall i :: 0 <= i < |s| - 1 ==> s[i + 1] <= s[i] + tileSize
  }

  /** The index of the last tile of s that starts at or before p; that tile contains p. */
  function CoverIndex(s: seq<nat>, tileSize: nat, p: nat): (k: nat)
    requires |s| > 0 && s[0] <= p < s[|s| - 1] + tileSize
    requires GapFree(s, tileSize)
    ensures k < |s| && s[k] <= p < s[k] + tileSize
  {
    var last := |s| - 1;
    if s[last] <= p then last
    else
      assert s[last] <= s[last - 1] + tileSize;
      CoverIndex(s[..last], tileSize, p)
  }

  /** The tiles along an axis cover every pixel of it. */
  lemma Coverage(length: nat, tileSize: nat, p: nat)
    requires tileSize > 0 && p < length
    ensures var coords := AxisCoords(length, tileSize);
      exists k :: 0 <= k < |coords| && coords[k] <= p < coords[k] + tileSize
  {
    var coords := AxisCoords(length, tileSize);
    var count := CeilDiv(length, tileSize);
    if count == 1 {
      assert coords == [0];
      assert p < tileSize;
      assert coords[0] <= p < coords[0] + tileSize;
    } else {
      assert count != 0;
      Endpoints(length, tileSize);
      forall i | 0 <= i < |coords| - 1
        ensures coords[i + 1] <= coords[i] + tileSize
      {
        Step(length, tileSize, i);
      }
      var k := CoverIndex(coords, tileSize, p);
      assert coords[k] <= p < coords[k] + tileSize;
    }
  }

  /** The two worked cases: a 1280 or a 1000 pixel axis cut into 640 pixel tiles. */
  lemma Examples()
    ensures AxisCoords(1280, 640) == [0, 640]
    ensures AxisCoords(1000, 640) == [0, 360]
  {
    ExampleCase(1280, 640);
    ExampleCase(1000, 640);
  }

  /** An axis longer than one tile but at most two tiles long gets exactly two tiles, at both ends. */
  lemma ExampleCase(length: nat, tileSize: nat)
    requires 0 < tileSize < length <= 2 * tileSize
    ensures AxisCoords(length, tileSize) == [0, length - tileSize]
  {
    var count := CeilDiv(length, tileSize);
    DivUnique(length + tileSize - 1, tileSize, 2, length - tileSize - 1);
    assert count == 2;
    Endpoints(length, tileSize);
  }
}
