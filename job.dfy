/**
 * handleProcess: split the uploaded bitmap, send each tile (optionally thresholded) to the
 * detector one after the other, and reassemble the answers; any failed call aborts the job.
 */
module Job {
  import opened Otsu
  import opened Binarize
  import opened Images
  import opened Split
  import opened Reassembly

  /** TILE_SIZE. */
  const TileSize: nat := 640

  /** A width × height bitmap holds 4 * width * height bytes of image data. */
  lemma TileBytes(tile: Bitmap)
    ensures |ImageData(tile.rows)| == Area(tile.height, 4 * tile.width)
    ensures |ImageData(tile.rows)| == 4 * (tile.width * tile.height)
  {
    ImageDataLength(tile.rows, tile.width);
    AreaIsProduct(tile.height, 4 * tile.width);
    assert tile.height * (4 * tile.width) == 4 * (tile.width * tile.height);
  }

  /** The image data of a bitmap is whole pixels of four bytes each. */
  lemma WholePixels(tile: Bitmap)
    ensures |ImageData(tile.rows)| == Area(tile.height, 4 * tile.width)
    ensures |ImageData(tile.rows)| % 4 == 0
  {
    TileBytes(tile);
  }

  /** Otsu's threshold of a tile: of its luminance histogram, with its pixel count as total. */
  function TileThreshold(tile: Bitmap): nat
  {
    WholePixels(tile);
    ThresholdOf(Histogram(ImageData(tile.rows)), tile.width * tile.height)
  }

  /** The tile whose image data is the tile's own binarised at a cutoff (putImageData of the rewritten buffer). */
  function Thresholded(tile: Bitmap, cutoff: int): (img: Bitmap)
    ensures img.width == tile.width && img.height == tile.height
  {
    WholePixels(tile);
    Image(tile.width, tile.height, FromImageData(Binarized(ImageData(tile.rows), cutoff), tile.width, tile.height))
  }

  /**
   * The bitmap bitmapToTileBlob encodes: the tile itself, or, with thresholding, the tile's
   * image data binarised with lum >= thresh at Otsu's threshold of its luminance histogram.
   */
  function Prepared(tile: Bitmap, apply: bool): (payload: Bitmap)
    ensures payload.width == tile.width && payload.height == tile.height
  {
    if !apply then tile else Thresholded(tile, TileThreshold(tile))
  }

  /**
   * The payload binarised at cutoff thresh + 1, that is with lum > thresh, which splits a
   * two-level tile into black and white (Binarize.CorrectedSplitsTwoLevelTile).
   */
  function PreparedCorrected(tile: Bitmap, apply: bool): (payload: Bitmap)
    ensures payload.width == tile.width && payload.height == tile.height
  {
    if !apply then tile else Thresholded(tile, TileThreshold(tile) + 1)
  }

  /** The image data of a thresholded tile is the tile's image data binarised at the cutoff. */
  lemma ThresholdedBytes(tile: Bitmap, cutoff: int)
    ensures |ImageData(tile.rows)| % 4 == 0
    ensures ImageData(Thresholded(tile, cutoff).rows) == Binarized(ImageData(tile.rows), cutoff)
  {
    WholePixels(tile);
    BytesRoundTrip(Binarized(ImageData(tile.rows), cutoff), tile.width, tile.height);
  }

  /** A tile's threshold is the one of its image data with total its pixel count. */
  lemma TileThresholdTotal(tile: Bitmap)
    ensures |ImageData(tile.rows)| % 4 == 0
    ensures TileThreshold(tile) == ThresholdOf(Histogram(ImageData(tile.rows)), |ImageData(tile.rows)| / 4)
  {
    TileBytes(tile);
    var n := tile.width * tile.height;
    var d := ImageData(tile.rows);
    assert |d| == 4 * n;
    assert |d| / 4 == n;
  }

  /** What the detector is sent with thresholding on: the tile's image data binarised with lum >= thresh. */
  lemma PreparedBytes(tile: Bitmap)
    ensures |ImageData(tile.rows)| % 4 == 0
    ensures var data := ImageData(tile.rows);
      ImageData(Prepared(tile, true).rows) == Binarized(data, ThresholdOf(Histogram(data), |data| / 4))
  {
    ThresholdedBytes(tile, TileThreshold(tile));
    TileThresholdTotal(tile);
  }

  /** With the corrected comparison: the tile's image data binarised with lum > thresh. */
  lemma PreparedCorrectedBytes(tile: Bitmap)
    ensures |ImageData(tile.rows)| % 4 == 0
    ensures var data := ImageData(tile.rows);
      ImageData(PreparedCorrected(tile, true).rows) == Binarized(data, ThresholdOf(Histogram(data), |data| / 4) + 1)
  {
    ThresholdedBytes(tile, TileThreshold(tile) + 1);
    TileThresholdTotal(tile);
  }

  /** bitmapToTileBlob: getImageData, threshold in place, putImageData. */
  method PrepareTile(tile: Bitmap, apply: bool) returns (payload: Bitmap)
    ensures payload == Prepared(tile, apply)
  {
    if !apply {
      return tile;
    }
    var flat := ImageData(tile.rows);
    TileBytes(tile);
    WholePixels(tile);
    var data := new byte[|flat|](k requires 0 <= k < |flat| => flat[k]);
    assert data[..] == flat;
    var thresh := ThresholdTile(data, tile.width * tile.height);
    assert thresh == TileThreshold(tile) && data[..] == Binarized(flat, thresh);
    payload := Image(tile.width, tile.height, FromImageData(data[..], tile.width, tile.height));
  }

  /** Without thresholding the detector receives the tile unchanged. */
  lemma PreparedWithoutThreshold(tile: Bitmap)
    ensures Prepared(tile, false) == tile
  {
  }

  /** One iteration of the tile loop: the detector's answer for the prepared tile, at the tile's anchor. */
  function Outcome(t: Tile, apply: bool, detect: Bitmap -> Option<Bitmap>): Option<Tile>
  {
    match detect(Prepared(t.bitmap, apply))
    case None => None
    case Some(answer) => Some(Tile(answer, t.x, t.y))
  }

  datatype Option<T> = None | Some(value: T)

  /** The first tile at or after i whose detector call fails, or |tiles| when none does. */
  function FirstFailure(tiles: seq<Tile>, apply: bool, detect: Bitmap -> Option<Bitmap>, i: nat): (n: nat)
    requires i <= |tiles|
    ensures i <= n <= |tiles|
    decreases |tiles| - i
  {
    if i == |tiles| || Outcome(tiles[i], apply, detect).None? then i
    else FirstFailure(tiles, apply, detect, i + 1)
  }

  /** Every call from i up to the first failure succeeds, and the one there fails. */
  lemma {:induction false} FirstFailureIs(tiles: seq<Tile>, apply: bool, detect: Bitmap -> Option<Bitmap>, i: nat)
    requires i <= |tiles|
    ensures var n := FirstFailure(tiles, apply, detect, i);
      (forall k :: i <= k < n ==> Outcome(tiles[k], apply, detect).Some?)
      && (n < |tiles| ==> Outcome(tiles[n], apply, detect).None?)
    decreases |tiles| - i
  {
    if i < |tiles| && Outcome(tiles[i], apply, detect).Some? {
      FirstFailureIs(tiles, apply, detect, i + 1);
    }
  }

  /** The number of tiles processed before the first failed call (all of them when none fails). */
  function Completed(tiles: seq<Tile>, apply: bool, detect: Bitmap -> Option<Bitmap>): (n: nat)
    ensures n <= |tiles|
    ensures forall k :: 0 <= k < n ==> Outcome(tiles[k], apply, detect).Some?
    ensures n < |tiles| ==> Outcome(tiles[n], apply, detect).None?
  {
    FirstFailureIs(tiles, apply, detect, 0);
    FirstFailure(tiles, apply, detect, 0)
  }

  /** The processed tiles of the first n iterations, when all n succeeded. */
  function Results(tiles: seq<Tile>, apply: bool, detect: Bitmap -> Option<Bitmap>, n: nat): (processed: seq<Tile>)
    requires n <= |tiles|
    requires forall k :: 0 <= k < n ==> Outcome(tiles[k], apply, detect).Some?
    ensures |processed| == n
  {
    if n == 0 then []
    else Results(tiles, apply, detect, n - 1) + [Outcome(tiles[n - 1], apply, detect).value]
  }

  /** One more successful iteration appends its processed tile. */
  lemma ResultsStep(tiles: seq<Tile>, apply: bool, detect: Bitmap -> Option<Bitmap>, i: nat)
    requires i < |tiles|
    requires forall k :: 0 <= k <= i ==> Outcome(tiles[k], apply, detect).Some?
    ensures Results(tiles, apply, detect, i + 1)
      == Results(tiles, apply, detect, i) + [Outcome(tiles[i], apply, detect).value]
  {
  }

  /** The job's outcome as the status line reports it. */
  datatype Status = Idle | NoFile | Failed | Done

  /** The file input: nothing chosen, a file that cannot be decoded, or a decoded bitmap. */
  datatype Upload = NoUpload | Undecodable | Decoded(bitmap: Bitmap)

  /** The state handleProcess keeps: status, progress (done of total) and the result image. */
  class Job {
    var status: Status
    var done: nat
    var total: nat
    var result: Option<Bitmap>

    constructor()
      ensures status == Idle && done == 0 && total == 0 && result == None
    {
      status, done, total, result := Idle, 0, 0, None;
    }

    /** handleProcess for one upload, threshold flag and detector. */
    method Process(upload: Upload, apply: bool, detect: Bitmap -> Option<Bitmap>)
      modifies this
      ensures upload.NoUpload? ==>
        status == NoFile && done == old(done) && total == old(total) && result == old(result)
      ensures upload.Undecodable? ==> status == Failed && done == 0 && total == 0 && result == None
      ensures upload.Decoded? ==> Finished(upload.bitmap, apply, detect)
    {
      if upload.NoUpload? {
        status := NoFile;
        return;
      }
      done, total, result := 0, 0, None;
      if upload.Undecodable? {
        status := Failed;
        return;
      }
      Run(upload.bitmap, apply, detect);
    }

    /**
     * The state after a job on src: progress counts the tiles before the first failed call;
     * a failure leaves no result; otherwise the result is the reassembled image.
     */
    ghost predicate Finished(src: Bitmap, apply: bool, detect: Bitmap -> Option<Bitmap>)
      reads this
    {
      var tiles := TilesOf(src, TileSize);
      total == |tiles| && done == Completed(tiles, apply, detect)
      && (done < total ==> status == Failed && result == None)
      && (done == total ==>
            status == Done && result == Some(Composed(src.width, src.height, Results(tiles, apply, detect, total), TileSize)))
    }

    /** The body of the try block: split, process every tile, reassemble. */
    method Run(src: Bitmap, apply: bool, detect: Bitmap -> Option<Bitmap>)
      requires result == None
      modifies this
      ensures Finished(src, apply, detect)
    {
      var tiles, cols, rows := SplitBitmap(src, TileSize);
      total := |tiles|;
      var processed := ProcessTiles(tiles, apply, detect);
      if done < total {
        status := Failed;
        assert Finished(src, apply, detect);
        return;
      }
      var picture := Reassemble(src.width, src.height, processed, TileSize);
      result, status := Some(picture), Done;
    }

    /** The tile loop: one detector call per tile, in order, stopping at the first failure. */
    method ProcessTiles(tiles: seq<Tile>, apply: bool, detect: Bitmap -> Option<Bitmap>) returns (processed: seq<Tile>)
      modifies this
      ensures done == Completed(tiles, apply, detect)
      ensures status == old(status) && total == old(total) && result == old(result)
      ensures done == |tiles| ==> processed == Results(tiles, apply, detect, |tiles|)
    {
      done := 0;
      processed := [];
      for i := 0 to |tiles|
        invariant done == i && status == old(status) && total == old(total) && result == old(result)
        invariant forall k :: 0 <= k < i ==> Outcome(tiles[k], apply, detect).Some?
        invariant processed == Results(tiles, apply, detect, i)
      {
        var t := tiles[i];
        var payload := PrepareTile(t.bitmap, apply);
        var answer := detect(payload);
        if answer.None? {
          CompletedIs(tiles, apply, detect, i);
          return;
        }
        ResultsStep(tiles, apply, detect, i);
        processed := processed + [Tile(answer.value, t.x, t.y)];
        done := done + 1;
      }
      CompletedIs(tiles, apply, detect, |tiles|);
    }
  }

  /** The reassembly step: paint the processed tiles on a white canvas and take its picture. */
  method Reassemble(width: nat, height: nat, tiles: seq<Tile>, size: nat) returns (picture: Bitmap)
    requires width >= 1 && height >= 1
    ensures picture == Composed(width, height, tiles, size)
  {
    var canvas := Composite(width, height, tiles, size);
    CanvasPicture(canvas, tiles, size);
    picture := Picture(canvas);
  }

  // ---------------------------------------------------------------------------
  // Properties of the pipeline

  /** Completed is the first failing index: fixed by "all before succeed" and "this one fails or is the end". */
  lemma CompletedIs(tiles: seq<Tile>, apply: bool, detect: Bitmap -> Option<Bitmap>, n: nat)
    requires n <= |tiles|
    requires forall k :: 0 <= k < n ==> Outcome(tiles[k], apply, detect).Some?
    requires n < |tiles| ==> Outcome(tiles[n], apply, detect).None?
    ensures Completed(tiles, apply, detect) == n
  {
  }

  /** The job fails exactly when some tile's detector call fails. */
  lemma FailsIff(tiles: seq<Tile>, apply: bool, detect: Bitmap -> Option<Bitmap>)
    ensures Completed(tiles, apply, detect) < |tiles|
        <==> exists k :: 0 <= k < |tiles| && Outcome(tiles[k], apply, detect).None?
  {
    var n := Completed(tiles, apply, detect);
    if n < |tiles| {
      assert Outcome(tiles[n], apply, detect).None?;
    }
  }

  /** processed[i] carries the anchor of tiles[i]; the answers' anchors are the grid's. */
  lemma {:induction false} ResultsKeepAnchors(tiles: seq<Tile>, apply: bool, detect: Bitmap -> Option<Bitmap>, n: nat, k: nat)
    requires n <= |tiles|
    requires forall j :: 0 <= j < n ==> Outcome(tiles[j], apply, detect).Some?
    requires k < n
    ensures var p := Results(tiles, apply, detect, n)[k];
      p.x == tiles[k].x && p.y == tiles[k].y
      && Some(p.bitmap) == detect(Prepared(tiles[k].bitmap, apply))
    decreases n
  {
    if k < n - 1 {
      ResultsKeepAnchors(tiles, apply, detect, n - 1, k);
    }
  }

  /** A detector that answers with the bitmap it was sent. */
  function Identity(b: Bitmap): Option<Bitmap>
  {
    Some(b)
  }

  /**
   * With the identity detector and no thresholding, every pixel of the reassembled image is
   * the source pixel: the tiles cover the bitmap and each covering tile shows the source.
   */
  lemma IdentityReconstructs(src: Bitmap, size: nat)
    requires size > 0
    ensures var tiles := TilesOf(src, size);
      Completed(tiles, false, Identity) == |tiles|
      && Composed(src.width, src.height, Results(tiles, false, Identity, |tiles|), size) == src
  {
    var tiles := TilesOf(src, size);
    forall k | 0 <= k < |tiles|
      ensures Outcome(tiles[k], false, Identity).Some?
    {
      IdentityAnswers(tiles[k]);
    }
    CompletedIs(tiles, false, Identity, |tiles|);
    var ps := Results(tiles, false, Identity, |tiles|);
    IdentityResults(tiles, |tiles|);
    assert tiles[..|tiles|] == tiles;
    assert ps == tiles;
    var img := Composed(src.width, src.height, ps, size);
    forall r | 0 <= r < src.height
      ensures img.rows[r] == src.rows[r]
    {
      forall c | 0 <= c < src.width
        ensures img.rows[r][c] == src.rows[r][c]
      {
        PixelReconstructed(src, size, r, c);
      }
    }
  }

  /** Without thresholding, the identity detector answers every tile with the tile itself. */
  lemma IdentityAnswers(t: Tile)
    ensures Outcome(t, false, Identity) == Some(t)
  {
    PreparedWithoutThreshold(t.bitmap);
  }

  /** Without thresholding, the identity detector's processed tiles are the tiles themselves. */
  lemma {:induction false} IdentityResults(tiles: seq<Tile>, n: nat)
    requires n <= |tiles|
    requires forall k :: 0 <= k < n ==> Outcome(tiles[k], false, Identity).Some?
    ensures Results(tiles, false, Identity, n) == tiles[..n]
  {
    if n > 0 {
      IdentityResults(tiles, n - 1);
      IdentityAnswers(tiles[n - 1]);
      assert tiles[..n] == tiles[..n - 1] + [tiles[n - 1]];
    }
  }

  /** One pixel of the identity reconstruction. */
  lemma PixelReconstructed(src: Bitmap, size: nat, r: nat, c: nat)
    requires size > 0 && r < src.height && c < src.width
    ensures CompositeAt(TilesOf(src, size), size, r, c) == At(src, r, c)
  {
    var tiles := TilesOf(src, size);
    Covered(src, size, r, c);
    var anchors := Anchors(src, size);
    var k :| 0 <= k < |anchors| && anchors[k].y <= r < anchors[k].y + size && anchors[k].x <= c < anchors[k].x + size;
    TileAt(src, size, k);
    assert Covers(tiles[k], size, r, c);
    forall j | 0 <= j < |tiles| && Covers(tiles[j], size, r, c)
      ensures Sample(tiles[j], size, r, c) == At(src, r, c)
    {
      TileShowsSource(src, size, j, r, c);
    }
    CoversAgree(tiles, size, r, c, At(src, r, c));
  }

  /** A tile of the grid that covers a pixel of the bitmap shows that pixel there. */
  lemma TileShowsSource(src: Bitmap, size: nat, j: nat, r: nat, c: nat)
    requires size > 0 && r < src.height && c < src.width
    requires j < |TilesOf(src, size)| && Covers(TilesOf(src, size)[j], size, r, c)
    ensures Sample(TilesOf(src, size)[j], size, r, c) == At(src, r, c)
  {
    var t := TilesOf(src, size)[j];
    TileAt(src, size, j);
    ExtractAt(src, t.x, t.y, size, r - t.y, c - t.x);
  }
}
