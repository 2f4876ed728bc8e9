/**
 * splitBitmap: the row-major anchor grid and the clipped copy of each tile out of the
 * source bitmap.
 */
module Split {
  import opened Grid
  import opened Images

  /** The top-left corner of a tile in the source bitmap. */
  datatype Anchor = Anchor(x: nat, y: nat)

  /** A tile bitmap together with the anchor it was cut at. */
  datatype Tile = Tile(bitmap: Bitmap, x: nat, y: nat)

  /** Row y of a tile anchored at column x: source pixels, transparent past the bitmap's edges. */
  function ClipRow(src: Bitmap, x: nat, y: nat, size: nat): (row: seq<Pixel>)
    ensures |row| == size
  {
    seq(size, c requires 0 <= c < size =>
      if y < src.height && x + c < src.width then At(src, y, x + c) else Transparent)
  }

  /** The first n rows of the tile anchored at (x, y). */
  function ClipRows(src: Bitmap, x: nat, y: nat, size: nat, n: nat): (rows: seq<seq<Pixel>>)
    ensures |rows| == n && forall r :: 0 <= r < n ==> |rows[r]| == size
  {
    if n == 0 then [] else ClipRows(src, x, y, size, n - 1) + [ClipRow(src, x, y + n - 1, size)]
  }

  /**
   * The tile canvas after clearRect and drawImage(bitmap, x, y, size, size, 0, 0, size, size):
   * the size × size square at (x, y), transparent wherever it lies outside the bitmap.
   */
  function Extract(src: Bitmap, x: nat, y: nat, size: nat): (tile: Bitmap)
    requires size > 0
    ensures tile.width == size && tile.height == size
  {
    Image(size, size, ClipRows(src, x, y, size, size))
  }

  /** The anchors of one grid row: every column coordinate at row coordinate y. */
  function RowOf(y: nat, cols: seq<nat>): seq<Anchor>
  {
    seq(|cols|, j requires 0 <= j < |cols| => Anchor(cols[j], y))
  }

  /** The anchors in row-major order: row coordinates outer, column coordinates inner. */
  function RowMajor(rows: seq<nat>, cols: seq<nat>): (anchors: seq<Anchor>)
    ensures forall k :: 0 <= k < |anchors| ==> anchors[k].x in cols && anchors[k].y in rows
  {
    if rows == [] then []
    else RowMajor(rows[..|rows| - 1], cols) + RowOf(rows[|rows| - 1], cols)
  }

  /** The tile cut at anchor a. */
  function CutAt(src: Bitmap, a: Anchor, size: nat): Tile
    requires size > 0
  {
    Tile(Extract(src, a.x, a.y, size), a.x, a.y)
  }

  /** The grid of a bitmap: computeCoords along its height and along its width. */
  function Anchors(src: Bitmap, size: nat): seq<Anchor>
    requires size > 0
  {
    RowMajor(AxisCoords(src.height, size), AxisCoords(src.width, size))
  }

  /** The tiles cut at the given anchors, in the same order. */
  function Cut(src: Bitmap, anchors: seq<Anchor>, size: nat): (tiles: seq<Tile>)
    requires size > 0
    ensures |tiles| == |anchors|
    ensures forall k :: 0 <= k < |tiles| ==> tiles[k].bitmap.width == size && tiles[k].bitmap.height == size
  {
    if anchors == [] then []
    else Cut(src, anchors[..|anchors| - 1], size) + [CutAt(src, anchors[|anchors| - 1], size)]
  }

  /** The tiles splitBitmap returns, one per anchor of the grid, in grid order. */
  function TilesOf(src: Bitmap, size: nat): (tiles: seq<Tile>)
    requires size > 0
    ensures |tiles| == |Anchors(src, size)|
    ensures forall k :: 0 <= k < |tiles| ==> tiles[k].bitmap.width == size && tiles[k].bitmap.height == size
  {
    Cut(src, Anchors(src, size), size)
  }

  /** splitBitmap: a nested loop over the row coordinates (outer) and the column coordinates (inner). */
  method SplitBitmap(src: Bitmap, size: nat) returns (tiles: seq<Tile>, cols: seq<nat>, rows: seq<nat>)
    requires size > 0
    ensures cols == AxisCoords(src.width, size) && rows == AxisCoords(src.height, size)
    ensures tiles == TilesOf(src, size)
  {
    cols := ComputeCoords(src.width, size);
    rows := ComputeCoords(src.height, size);
    tiles := [];
    for i := 0 to |rows|
      invariant tiles == Cut(src, RowMajor(rows[..i], cols), size)
    {
      var row := SplitRow(src, rows[i], cols, size);
      CutAppend(src, RowMajor(rows[..i], cols), RowOf(rows[i], cols), size);
      RowMajorStep(rows, cols, i);
      tiles := tiles + row;
    }
    assert rows[..|rows|] == rows;
  }

  /** The inner loop of splitBitmap: the tiles of one grid row, left to right. */
  method SplitRow(src: Bitmap, y: nat, cols: seq<nat>, size: nat) returns (row: seq<Tile>)
    requires size > 0
    ensures row == Cut(src, RowOf(y, cols), size)
  {
    row := [];
    for j := 0 to |cols|
      invariant row == Cut(src, RowOf(y, cols[..j]), size)
    {
      var x := cols[j];
      var bitmap := Extract(src, x, y, size);
      RowOfStep(y, cols, j);
      CutStep(src, RowOf(y, cols[..j]), Anchor(x, y), size);
      row := row + [Tile(bitmap, x, y)];
    }
    assert cols[..|cols|] == cols;
  }

  /** Cutting the anchors of two runs is cutting each run. */
  lemma {:induction false} CutAppend(src: Bitmap, front: seq<Anchor>, back: seq<Anchor>, size: nat)
    requires size > 0
    ensures Cut(src, front + back, size) == Cut(src, front, size) + Cut(src, back, size)
    decreases |back|
  {
    if back == [] {
      assert front + back == front;
    } else {
      var n := |back| - 1;
      CutAppend(src, front, back[..n], size);
      assert (front + back)[..|front + back| - 1] == front + back[..n];
    }
  }

  lemma RowOfStep(y: nat, cols: seq<nat>, j: nat)
    requires j < |cols|
    ensures RowOf(y, cols[..j + 1]) == RowOf(y, cols[..j]) + [Anchor(cols[j], y)]
  {
    assert |RowOf(y, cols[..j + 1])| == j + 1;
  }

  lemma RowMajorStep(rows: seq<nat>, cols: seq<nat>, i: nat)
    requires i < |rows|
    ensures RowMajor(rows[..i + 1], cols) == RowMajor(rows[..i], cols) + RowOf(rows[i], cols)
  {
    assert rows[..i + 1][..i] == rows[..i];
  }

  lemma CutStep(src: Bitmap, anchors: seq<Anchor>, a: Anchor, size: nat)
    requires size > 0
    ensures Cut(src, anchors + [a], size) == Cut(src, anchors, size) + [CutAt(src, a, size)]
  {
    assert (anchors + [a])[..|anchors|] == anchors;
  }

  // ---------------------------------------------------------------------------
  // Properties of the grid

  /** There are |rows| * |cols| anchors. */
  lemma {:induction false} RowMajorLength(rows: seq<nat>, cols: seq<nat>)
    ensures |RowMajor(rows, cols)| == |rows| * |cols|
  {
    if rows != [] {
      RowMajorLength(rows[..|rows| - 1], cols);
      assert |rows| * |cols| == (|rows| - 1) * |cols| + |cols|;
    }
  }

  /** Anchor number i * |cols| + j is (cols[j], rows[i]): row-major order. */
  lemma {:induction false} RowMajorIndex(rows: seq<nat>, cols: seq<nat>, i: nat, j: nat)
    requires i < |rows| && j < |cols|
    ensures i * |cols| + j < |RowMajor(rows, cols)|
    ensures RowMajor(rows, cols)[i * |cols| + j] == Anchor(cols[j], rows[i])
  {
    var n := |rows| - 1;
    var front := rows[..n];
    RowMajorLength(front, cols);
    RowMajorLength(rows, cols);
    if i < n {
      RowMajorIndex(front, cols, i, j);
      MulMono(i + 1, n, |cols|);
      assert (i + 1) * |cols| == i * |cols| + |cols|;
    } else {
      assert i * |cols| == |RowMajor(front, cols)|;
    }
  }

  /** An anchor is in the grid exactly when it pairs a column coordinate with a row coordinate. */
  lemma {:induction false} RowMajorMembers(rows: seq<nat>, cols: seq<nat>, a: Anchor)
    ensures a in RowMajor(rows, cols) <==> a.x in cols && a.y in rows
  {
    if rows != [] {
      var n := |rows| - 1;
      RowMajorMembers(rows[..n], cols, a);
      assert rows == rows[..n] + [rows[n]];
      if a.x in cols && a.y == rows[n] {
        var j :| 0 <= j < |cols| && cols[j] == a.x;
        assert RowOf(rows[n], cols)[j] == a;
      }
    }
  }

  /** Tile k is the one cut at anchor k. */
  lemma {:induction false} CutIndex(src: Bitmap, anchors: seq<Anchor>, size: nat, k: nat)
    requires size > 0 && k < |anchors|
    ensures Cut(src, anchors, size)[k] == CutAt(src, anchors[k], size)
  {
    if k < |anchors| - 1 {
      CutIndex(src, anchors[..|anchors| - 1], size, k);
    }
  }

  /** Every tile carries its anchor and the bitmap cut there. */
  lemma TileAt(src: Bitmap, size: nat, k: nat)
    requires size > 0 && k < |Anchors(src, size)|
    ensures |TilesOf(src, size)| == |Anchors(src, size)|
    ensures var t := TilesOf(src, size)[k];
      Anchor(t.x, t.y) == Anchors(src, size)[k] && t.bitmap == Extract(src, t.x, t.y, size)
  {
    CutIndex(src, Anchors(src, size), size, k);
  }

  /** Row r of the first n rows is the clipped source row y + r. */
  lemma {:induction false} ClipRowsAt(src: Bitmap, x: nat, y: nat, size: nat, n: nat, r: nat)
    requires r < n
    ensures ClipRows(src, x, y, size, n)[r] == ClipRow(src, x, y + r, size)
  {
    if r < n - 1 {
      ClipRowsAt(src, x, y, size, n - 1, r);
    }
  }

  /** Inside the bitmap a tile shows the source pixel; outside it is transparent. */
  lemma ExtractAt(src: Bitmap, x: nat, y: nat, size: nat, r: nat, c: nat)
    requires size > 0 && r < size && c < size
    ensures At(Extract(src, x, y, size), r, c)
      == if y + r < src.height && x + c < src.width then At(src, y + r, x + c) else Transparent
  {
    ClipRowsAt(src, x, y, size, size, r);
  }

  /** Every pixel of the bitmap lies inside the square of some anchor of the grid. */
  lemma Covered(src: Bitmap, size: nat, r: nat, c: nat)
    requires size > 0 && r < src.height && c < src.width
    ensures var anchors := Anchors(src, size);
      exists k :: 0 <= k < |anchors| && anchors[k].y <= r < anchors[k].y + size && anchors[k].x <= c < anchors[k].x + size
  {
    var rows := AxisCoords(src.height, size);
    var cols := AxisCoords(src.width, size);
    Coverage(src.height, size, r);
    Coverage(src.width, size, c);
    var i :| 0 <= i < |rows| && rows[i] <= r < rows[i] + size;
    var j :| 0 <= j < |cols| && cols[j] <= c < cols[j] + size;
    RowMajorIndex(rows, cols, i, j);
    var k := i * |cols| + j;
    assert Anchors(src, size)[k] == Anchor(cols[j], rows[i]);
  }
}
