/**
 * Reassembly: every processed tile is drawn, in order, at its anchor on a white canvas of
 * the source's size, later tiles over earlier ones.
 */
module Reassembly {
  import opened Images
  import opened Split

  /**
   * Whether drawing tile t as a size × size square at its anchor paints canvas pixel
   * (r, c), given that the tile bitmap reaches that far.
   */
  predicate Covers(t: Tile, size: nat, r: nat, c: nat)
  {
    t.y <= r < t.y + size && t.x <= c < t.x + size
    && r - t.y < t.bitmap.height && c - t.x < t.bitmap.width
  }

  /** The pixel tile t paints at canvas pixel (r, c). */
  function Sample(t: Tile, size: nat, r: nat, c: nat): Pixel
    requires Covers(t, size, r, c)
  {
    At(t.bitmap, r - t.y, c - t.x)
  }

  /** Canvas pixel (r, c) after drawing the tiles in order over white. */
  function CompositeAt(tiles: seq<Tile>, size: nat, r: nat, c: nat): (p: Pixel)
    ensures p == White || exists k :: 0 <= k < |tiles| && Covers(tiles[k], size, r, c) && p == Sample(tiles[k], size, r, c)
  {
    if tiles == [] then White
    else
      var t := tiles[|tiles| - 1];
      if Covers(t, size, r, c) then Sample(t, size, r, c)
      else CompositeAt(tiles[..|tiles| - 1], size, r, c)
  }

  /** The final image: width × height pixels, each the composite of the tiles. */
  function Composed(width: nat, height: nat, tiles: seq<Tile>, size: nat): (img: Bitmap)
    requires width >= 1 && height >= 1
    ensures img.width == width && img.height == height
  {
    var rows := seq(height, r requires 0 <= r < height =>
      seq(width, c requires 0 <= c < width => CompositeAt(tiles, size, r, c)));
    assert forall r :: 0 <= r < height ==> |rows[r]| == width;
    Image(width, height, rows)
  }

  /** The picture a canvas holds. */
  function Picture(canvas: array2<Pixel>): (img: Image)
    reads canvas
  {
    Image(canvas.Length1, canvas.Length0, seq(canvas.Length0, r requires 0 <= r < canvas.Length0 reads canvas =>
      seq(canvas.Length1, c requires 0 <= c < canvas.Length1 reads canvas => canvas[r, c])))
  }

  function Min(a: int, b: int): int
  {
    if a < b then a else b
  }

  /** Draws the part of tile t in canvas row r. */
  method PaintRow(canvas: array2<Pixel>, t: Tile, size: nat, r: nat)
    requires r < canvas.Length0 && t.y <= r < t.y + size && r - t.y < t.bitmap.height
    modifies canvas
    ensures forall i, j :: 0 <= i < canvas.Length0 && 0 <= j < canvas.Length1 ==>
      canvas[i, j] == if i == r && Covers(t, size, i, j) then Sample(t, size, i, j) else old(canvas[i, j])
  {
    var stop := Min(t.x + Min(size, t.bitmap.width), canvas.Length1);
    var c := t.x;
    while c < stop
      invariant t.x <= c
      invariant forall i, j :: 0 <= i < canvas.Length0 && 0 <= j < canvas.Length1 ==>
        canvas[i, j] == if i == r && Covers(t, size, i, j) && j < c then Sample(t, size, i, j) else old(canvas[i, j])
    {
      canvas[r, c] := At(t.bitmap, r - t.y, c - t.x);
      c := c + 1;
    }
  }

  /** ctx.drawImage(t.bitmap, t.x, t.y, size, size), clipped to the canvas. */
  method Paint(canvas: array2<Pixel>, t: Tile, size: nat)
    modifies canvas
    ensures forall i, j :: 0 <= i < canvas.Length0 && 0 <= j < canvas.Length1 ==>
      canvas[i, j] == if Covers(t, size, i, j) then Sample(t, size, i, j) else old(canvas[i, j])
  {
    var stop := Min(t.y + Min(size, t.bitmap.height), canvas.Length0);
    var r := t.y;
    while r < stop
      invariant t.y <= r
      invariant forall i, j :: 0 <= i < canvas.Length0 && 0 <= j < canvas.Length1 ==>
        canvas[i, j] == if Covers(t, size, i, j) && i < r then Sample(t, size, i, j) else old(canvas[i, j])
    {
      PaintRow(canvas, t, size, r);
      r := r + 1;
    }
  }

  /** The reassembly step of handleProcess: fill the canvas white, then draw every tile in order. */
  method Composite(width: nat, height: nat, tiles: seq<Tile>, size: nat) returns (canvas: array2<Pixel>)
    ensures fresh(canvas) && canvas.Length0 == height && canvas.Length1 == width
    ensures forall r, c :: 0 <= r < height && 0 <= c < width ==> canvas[r, c] == CompositeAt(tiles, size, r, c)
  {
    canvas := new Pixel[height, width]((r, c) => White);
    for k := 0 to |tiles|
      invariant forall r, c :: 0 <= r < height && 0 <= c < width ==> canvas[r, c] == CompositeAt(tiles[..k], size, r, c)
    {
      Paint(canvas, tiles[k], size);
      assert tiles[..k + 1][..k] == tiles[..k];
    }
    assert tiles[..|tiles|] == tiles;
  }

  // ---------------------------------------------------------------------------
  // Properties of compositing

  /** A pixel no tile covers stays white. */
  lemma {:induction false} Uncovered(tiles: seq<Tile>, size: nat, r: nat, c: nat)
    requires forall k :: 0 <= k < |tiles| ==> !Covers(tiles[k], size, r, c)
    ensures CompositeAt(tiles, size, r, c) == White
  {
    if tiles != [] {
      Uncovered(tiles[..|tiles| - 1], size, r, c);
    }
  }

  /** A covered pixel shows the last tile that covers it: later tiles overwrite earlier ones. */
  lemma {:induction false} LastCoverWins(tiles: seq<Tile>, size: nat, r: nat, c: nat, k: nat)
    requires k < |tiles| && Covers(tiles[k], size, r, c)
    requires forall j :: k < j < |tiles| ==> !Covers(tiles[j], size, r, c)
    ensures CompositeAt(tiles, size, r, c) == Sample(tiles[k], size, r, c)
  {
    if k < |tiles| - 1 {
      LastCoverWins(tiles[..|tiles| - 1], size, r, c, k);
    }
  }

  /** When every tile covering a pixel shows the same value there and one does cover it, the pixel has that value. */
  lemma {:induction false} CoversAgree(tiles: seq<Tile>, size: nat, r: nat, c: nat, v: Pixel)
    requires exists k :: 0 <= k < |tiles| && Covers(tiles[k], size, r, c)
    requires forall k :: 0 <= k < |tiles| && Covers(tiles[k], size, r, c) ==> Sample(tiles[k], size, r, c) == v
    ensures CompositeAt(tiles, size, r, c) == v
  {
    var n := |tiles| - 1;
    if !Covers(tiles[n], size, r, c) {
      var k :| 0 <= k < |tiles| && Covers(tiles[k], size, r, c);
      assert tiles[..n][k] == tiles[k];
      CoversAgree(tiles[..n], size, r, c, v);
    }
  }

  /** The canvas handed to toBlob holds the composed image. */
  lemma CanvasPicture(canvas: array2<Pixel>, tiles: seq<Tile>, size: nat)
    requires canvas.Length0 >= 1 && canvas.Length1 >= 1
    requires forall r, c :: 0 <= r < canvas.Length0 && 0 <= c < canvas.Length1 ==>
      canvas[r, c] == CompositeAt(tiles, size, r, c)
    ensures Picture(canvas) == Composed(canvas.Length1, canvas.Length0, tiles, size)
  {
    var pic := Picture(canvas);
    var img := Composed(canvas.Length1, canvas.Length0, tiles, size);
    forall r | 0 <= r < canvas.Length0
      ensures pic.rows[r] == img.rows[r]
    {
    }
  }
}
