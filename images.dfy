/**
 * Decoded bitmaps as rows of RGBA pixels, and the flat RGBA byte buffer (ImageData)
 * that getImageData reads out and putImageData writes back.
 */
module Images {
  /** One channel of an RGBA buffer (a Uint8ClampedArray element). */
  type byte = x: int | 0 <= x < 256

  datatype Pixel = Pixel(r: byte, g: byte, b: byte, a: byte)

  /** What clearRect leaves behind. */
  const Transparent: Pixel := Pixel(0, 0, 0, 0)

  /** The fill colour of the final canvas, "#fff". */
  const White: Pixel := Pixel(255, 255, 255, 255)

  /** A bitmap of width × height pixels, stored row by row. */
  datatype Image = Image(width: nat, height: nat, rows: seq<seq<Pixel>>)
  {
    predicate Valid() {
      1 <= width && 1 <= height && |rows| == height
      && forall y :: 0 <= y < |rows| ==> |rows[y]| == width
    }
  }

  /** A decoded bitmap always has at least one pixel and rectangular rows. */
  type Bitmap = img: Image | img.Valid() witness Image(1, 1, [[Pixel(0, 0, 0, 0)]])

  /** The pixel in row y, column x. */
  function At(img: Bitmap, y: nat, x: nat): Pixel
    requires y < img.height && x < img.width
  {
    img.rows[y][x]
  }

  // ---------------------------------------------------------------------------
  // ImageData: R, G, B, A of each pixel, row after row

  function RowData(row: seq<Pixel>): (d: seq<byte>)
    ensures |d| == 4 * |row|
  {
    if row == [] then []
    else
      var p := row[|row| - 1];
      RowData(row[..|row| - 1]) + [p.r, p.g, p.b, p.a]
  }

  /** The number of pixels in a list of rows. */
  function PixelCount(rows: seq<seq<Pixel>>): nat
  {
    if rows == [] then 0 else PixelCount(rows[..|rows| - 1]) + |rows[|rows| - 1]|
  }

  function ImageData(rows: seq<seq<Pixel>>): (d: seq<byte>)
    ensures |d| == 4 * PixelCount(rows)
  {
    if rows == [] then []
    else ImageData(rows[..|rows| - 1]) + RowData(rows[|rows| - 1])
  }

  function RowPixels(d: seq<byte>): (row: seq<Pixel>)
    requires |d| % 4 == 0
    ensures |row| == |d| / 4
  {
    if d == [] then []
    else
      var n := |d| - 4;
      RowPixels(d[..n]) + [Pixel(d[n], d[n + 1], d[n + 2], d[n + 3])]
  }

  /** rows * rowLength, counted row by row, so that splitting off the last row stays linear. */
  function Area(rows: nat, rowLength: nat): nat
  {
    if rows == 0 then 0 else Area(rows - 1, rowLength) + rowLength
  }

  lemma {:induction false} AreaIsProduct(rows: nat, rowLength: nat)
    ensures Area(rows, rowLength) == rows * rowLength
  {
    if rows > 0 {
      AreaIsProduct(rows - 1, rowLength);
      assert rows * rowLength == (rows - 1) * rowLength + rowLength;
    }
  }

  function FromImageData(d: seq<byte>, width: nat, height: nat): (rows: seq<seq<Pixel>>)
    requires |d| == Area(height, 4 * width)
    ensures |rows| == height
    ensures forall y :: 0 <= y < height ==> |rows[y]| == width
    decreases height
  {
    if height == 0 then []
    else
      var n := |d| - 4 * width;
      FromImageData(d[..n], width, height - 1) + [RowPixels(d[n..])]
  }

  /** The buffer of rows all of the same width holds 4 bytes per pixel. */
  lemma {:induction false} ImageDataLength(rows: seq<seq<Pixel>>, width: nat)
    requires forall y :: 0 <= y < |rows| ==> |rows[y]| == width
    ensures |ImageData(rows)| == Area(|rows|, 4 * width)
  {
    if rows != [] {
      ImageDataLength(rows[..|rows| - 1], width);
    }
  }

  /** Reading back the bytes of a row gives the row. */
  lemma {:induction false} RowRoundTrip(row: seq<Pixel>)
    ensures RowPixels(RowData(row)) == row
  {
    if row != [] {
      var d := RowData(row);
      var front := row[..|row| - 1];
      assert d[..|d| - 4] == RowData(front);
      RowRoundTrip(front);
      assert row == front + [row[|row| - 1]];
    }
  }

  /** Writing out the pixels of a row of bytes gives the bytes. */
  lemma {:induction false} RowBytesRoundTrip(d: seq<byte>)
    requires |d| % 4 == 0
    ensures RowData(RowPixels(d)) == d
  {
    if d != [] {
      var n := |d| - 4;
      var row := RowPixels(d);
      assert row[..|row| - 1] == RowPixels(d[..n]);
      RowBytesRoundTrip(d[..n]);
      assert d == d[..n] + [d[n], d[n + 1], d[n + 2], d[n + 3]];
    }
  }

  lemma SplitLast<T>(s: seq<T>)
    requires |s| > 0
    ensures s[..|s| - 1] + [s[|s| - 1]] == s
  {
  }

  lemma SplitAt<T>(s: seq<T>, n: nat)
    requires n <= |s|
    ensures s[..n] + s[n..] == s
  {
  }

  /** putImageData(getImageData()) leaves a bitmap as it was. */
  lemma {:induction false} ImageDataRoundTrip(rows: seq<seq<Pixel>>, width: nat)
    requires forall y :: 0 <= y < |rows| ==> |rows[y]| == width
    ensures |ImageData(rows)| == Area(|rows|, 4 * width) && FromImageData(ImageData(rows), width, |rows|) == rows
  {
    ImageDataLength(rows, width);
    if rows != [] {
      var h := |rows|;
      var d := ImageData(rows);
      var front := rows[..h - 1];
      ImageDataLength(front, width);
      var n := |d| - 4 * width;
      assert d[..n] == ImageData(front);
      assert d[n..] == RowData(rows[h - 1]);
      ImageDataRoundTrip(front, width);
      RowRoundTrip(rows[h - 1]);
      assert FromImageData(d, width, h) == front + [rows[h - 1]];
      SplitLast(rows);
    }
  }

  /** getImageData(putImageData(d)) gives back the buffer d. */
  lemma {:induction false} BytesRoundTrip(d: seq<byte>, width: nat, height: nat)
    requires |d| == Area(height, 4 * width)
    ensures ImageData(FromImageData(d, width, height)) == d
    decreases height
  {
    if height > 0 {
      var n := |d| - 4 * width;
      var front := FromImageData(d[..n], width, height - 1);
      var last := RowPixels(d[n..]);
      var rows := FromImageData(d, width, height);
      assert rows == front + [last];
      assert rows[..height - 1] == front && rows[height - 1] == last;
      BytesRoundTrip(d[..n], width, height - 1);
      RowBytesRoundTrip(d[n..]);
      assert ImageData(rows) == ImageData(front) + RowData(last);
      SplitAt(d, n);
    }
  }
}
