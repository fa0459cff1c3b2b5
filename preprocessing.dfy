/**
 * Salt-and-pepper noise injection.
 *
 * The image is a rows x columns x channels array of 8-bit values. A fresh
 * image of the same shape is filled pixel by pixel in row-major order; for
 * each pixel one uniform draw r in [0, 1) decides whether it becomes black
 * (r < p/2), white (p/2 <= r < p) or a copy of the input pixel. The random
 * source is replaced by a grid of draws supplied by the caller: draws[i][j]
 * is the draw taken at iteration (i, j) of the nested loop; DrawGrid builds
 * that grid from the flat stream of draws, row by row.
 */
module Preprocessing {

  /** One 8-bit channel value. */
  newtype uint8 = x: int | 0 <= x < 256

  /** The noise probability used when the caller gives none. */
  const DefaultNoiseProbability: real := 0.3

  /** The value a channel of a pixel receives when the pixel's draw is r and the input channel holds v. */
  function NoisyChannel(r: real, p: real, v: uint8): (w: uint8)
  {
    if r < p / 2.0 then 0 else if r < p then 255 else v
  }

  /** The draw r turns its pixel black or white instead of keeping it. */
  predicate Replaces(r: real, p: real)
  {
    r < p / 2.0 || r < p
  }

  /** One draw per pixel of a rows x columns image, each in [0, 1). */
  predicate IsDrawGrid(draws: seq<seq<real>>, rows: nat, columns: nat)
  {
    |draws| == rows &&
    forall i :: 0 <= i < rows ==>
      (|draws[i]| == columns && forall j :: 0 <= j < columns ==> 0.0 <= draws[i][j] < 1.0)
  }

  /**
   * The grid of draws a rows x columns loop takes from a flat stream of
   * draws: row i is the i-th run of `columns` consecutive draws, so
   * draws[i][j] is the (i * columns + j)-th draw of the stream.
   */
  function DrawGrid(stream: seq<real>, rows: nat, columns: nat): (draws: seq<seq<real>>)
    requires |stream| == rows * columns
    ensures |draws| == rows
    ensures forall i :: 0 <= i < rows ==> |draws[i]| == columns
    ensures forall i, j :: 0 <= i < rows && 0 <= j < columns ==>
      RowMajor(i, j, columns) < |stream| && draws[i][j] == stream[RowMajor(i, j, columns)]
    ensures (forall n :: 0 <= n < |stream| ==> 0.0 <= stream[n] < 1.0) ==> IsDrawGrid(draws, rows, columns)
  {
    RowMajorAllWithin(rows, columns);
    seq(rows, i requires 0 <= i < rows =>
      seq(columns, j requires 0 <= j < columns => stream[RowMajor(i, j, columns)]))
  }

  /** The draws of a grid, read row by row into one stream. */
  function Flatten(draws: seq<seq<real>>): (stream: seq<real>)
  {
    if |draws| == 0 then [] else draws[0] + Flatten(draws[1..])
  }

  /**
   * Reading the grid back row by row gives the stream it was built from: each
   * draw of the stream lands in exactly one cell, in order, none skipped or
   * used twice.
   */
  lemma {:induction false} FlattenDrawGrid(stream: seq<real>, rows: nat, columns: nat)
    requires |stream| == rows * columns
    ensures Flatten(DrawGrid(stream, rows, columns)) == stream
    decreases rows
  {
    if rows > 0 {
      DrawGridSplit(stream, rows, columns);
      FlattenDrawGrid(stream[columns..], rows - 1, columns);
      assert stream[..columns] + stream[columns..] == stream;
    } else {
      assert DrawGrid(stream, rows, columns) == [];
    }
  }

  /** The first row of the grid is the first `columns` draws; the other rows are the grid of the rest. */
  lemma DrawGridSplit(stream: seq<real>, rows: nat, columns: nat)
    requires |stream| == rows * columns && rows > 0
    ensures columns <= |stream| && |stream[columns..]| == (rows - 1) * columns
    ensures DrawGrid(stream, rows, columns)[0] == stream[..columns]
    ensures DrawGrid(stream, rows, columns)[1..] == DrawGrid(stream[columns..], rows - 1, columns)
    ensures Flatten(DrawGrid(stream, rows, columns)) == stream[..columns] + Flatten(DrawGrid(stream[columns..], rows - 1, columns))
  {
    assert |stream| == columns + (rows - 1) * columns;
    var g, h := DrawGrid(stream, rows, columns), DrawGrid(stream[columns..], rows - 1, columns);
    forall i | 0 <= i < rows - 1
      ensures g[1..][i] == h[i]
    {
      forall j | 0 <= j < columns
        ensures g[1..][i][j] == h[i][j]
      {
        assert RowMajor(i + 1, j, columns) == columns + RowMajor(i, j, columns);
      }
    }
  }

  /** The position of element (i, j) when a grid with `columns` columns is read row by row. */
  function RowMajor(i: nat, j: nat, columns: nat): (n: nat)
  {
    i * columns + j
  }

  /** Every row-major position of a rows x columns grid is below rows * columns. */
  lemma RowMajorAllWithin(rows: nat, columns: nat)
    ensures forall i, j :: 0 <= i < rows && 0 <= j < columns ==> RowMajor(i, j, columns) < rows * columns
  {
    forall i, j | 0 <= i < rows && 0 <= j < columns
      ensures RowMajor(i, j, columns) < rows * columns
    {
      RowMajorWithin(i, j, rows, columns);
    }
  }

  /** Row-major positions of a rows x columns grid stay below rows * columns. */
  lemma {:induction false} RowMajorWithin(i: nat, j: nat, rows: nat, columns: nat)
    requires i < rows && j < columns
    ensures RowMajor(i, j, columns) < rows * columns
    decreases rows
  {
    if i + 1 < rows {
      RowMajorWithin(i, j, rows - 1, columns);
      assert rows * columns == (rows - 1) * columns + columns;
    } else {
      assert rows * columns == i * columns + columns;
    }
  }

  /** Every channel of pixel (i, j) of a holds v. */
  predicate PixelIs(a: array3<uint8>, i: nat, j: nat, v: uint8)
    requires i < a.Length0 && j < a.Length1
    reads a
  {
    forall k :: 0 <= k < a.Length2 ==> a[i, j, k] == v
  }

  /** Pixel (i, j) of a equals pixel (i, j) of b, channel by channel. */
  predicate SamePixel(a: array3<uint8>, b: array3<uint8>, i: nat, j: nat)
    requires i < a.Length0 && j < a.Length1 && i < b.Length0 && j < b.Length1 && a.Length2 == b.Length2
    reads a, b
  {
    forall k :: 0 <= k < a.Length2 ==> a[i, j, k] == b[i, j, k]
  }

  /** Pixel (i, j) of noisy holds what a pixel with draw r and input pixel (i, j) of img becomes. */
  predicate NoisyPixel(noisy: array3<uint8>, img: array3<uint8>, i: nat, j: nat, r: real, p: real)
    requires i < noisy.Length0 && j < noisy.Length1 && i < img.Length0 && j < img.Length1
    requires noisy.Length2 == img.Length2
    reads noisy, img
  {
    forall k :: 0 <= k < noisy.Length2 ==> noisy[i, j, k] == NoisyChannel(r, p, img[i, j, k])
  }

  /** Every output pixel is black, white, or the input pixel at the same place. */
  lemma NoisyPixelIsBlackWhiteOrCopy(noisy: array3<uint8>, img: array3<uint8>, i: nat, j: nat, r: real, p: real)
    requires i < noisy.Length0 && j < noisy.Length1 && i < img.Length0 && j < img.Length1
    requires noisy.Length2 == img.Length2
    requires NoisyPixel(noisy, img, i, j, r, p)
    ensures r < p / 2.0 ==> PixelIs(noisy, i, j, 0)
    ensures p / 2.0 <= r < p ==> PixelIs(noisy, i, j, 255)
    ensures !Replaces(r, p) ==> SamePixel(noisy, img, i, j)
    ensures PixelIs(noisy, i, j, 0) || PixelIs(noisy, i, j, 255) || SamePixel(noisy, img, i, j)
  {
  }

  /** numpy's `a[i][j] = [v, v, v]`: sets the three channels of pixel (i, j) and nothing else. */
  method FillPixel(a: array3<uint8>, i: nat, j: nat, v: uint8)
    requires i < a.Length0 && j < a.Length1 && a.Length2 == 3
    modifies a
    ensures PixelIs(a, i, j, v)
    ensures forall i', j', k :: 0 <= i' < a.Length0 && 0 <= j' < a.Length1 && 0 <= k < a.Length2 && (i' != i || j' != j) ==>
      a[i', j', k] == old(a[i', j', k])
  {
    a[i, j, 0], a[i, j, 1], a[i, j, 2] := v, v, v;
  }

  /** numpy's `dst[i][j] = src[i][j]`: copies pixel (i, j), channel by channel, and nothing else. */
  method CopyPixel(dst: array3<uint8>, src: array3<uint8>, i: nat, j: nat)
    requires dst != src
    requires i < dst.Length0 && j < dst.Length1 && i < src.Length0 && j < src.Length1
    requires dst.Length2 == src.Length2
    modifies dst
    ensures SamePixel(dst, src, i, j)
    ensures forall i', j', k :: 0 <= i' < dst.Length0 && 0 <= j' < dst.Length1 && 0 <= k < dst.Length2 && (i' != i || j' != j) ==>
      dst[i', j', k] == old(dst[i', j', k])
  {
    for k := 0 to dst.Length2
      invariant forall k' :: 0 <= k' < k ==> dst[i, j, k'] == src[i, j, k']
      invariant forall i', j', k' :: 0 <= i' < dst.Length0 && 0 <= j' < dst.Length1 && 0 <= k' < dst.Length2 && (i' != i || j' != j) ==>
        dst[i', j', k'] == old(dst[i', j', k'])
    {
      dst[i, j, k] := src[i, j, k];
    }
  }

  /**
   * Returns a fresh noisy copy of img. Writing the 3-value black or white
   * pixel into an image whose pixels do not have exactly 3 channels fails;
   * `ok` is false exactly when that happens.
   */
  method AddSaltAndPepperNoise(img: array3<uint8>, p: real, draws: seq<seq<real>>)
    returns (ok: bool, noisy: array3<uint8>)
    requires IsDrawGrid(draws, img.Length0, img.Length1)
    ensures fresh(noisy)
    ensures noisy.Length0 == img.Length0 && noisy.Length1 == img.Length1 && noisy.Length2 == img.Length2
    ensures ok <==> (img.Length2 == 3 ||
                     forall i, j :: 0 <= i < img.Length0 && 0 <= j < img.Length1 ==> !Replaces(draws[i][j], p))
    ensures ok ==> forall i, j :: 0 <= i < img.Length0 && 0 <= j < img.Length1 ==>
      NoisyPixel(noisy, img, i, j, draws[i][j], p)
    ensures p <= 0.0 ==> ok && forall i, j, k :: 0 <= i < img.Length0 && 0 <= j < img.Length1 && 0 <= k < img.Length2 ==>
      noisy[i, j, k] == img[i, j, k]
  {
    var rows, columns, channels := img.Length0, img.Length1, img.Length2;
    noisy := new uint8[rows, columns, channels]((_, _, _) => 0);
    ok := true;
    for i := 0 to rows
      invariant forall i', j :: 0 <= i' < i && 0 <= j < columns ==> NoisyPixel(noisy, img, i', j, draws[i'][j], p)
      invariant channels == 3 || forall i', j :: 0 <= i' < i && 0 <= j < columns ==> !Replaces(draws[i'][j], p)
    {
      for j := 0 to columns
        invariant forall i', j' :: 0 <= i' < i && 0 <= j' < columns ==> NoisyPixel(noisy, img, i', j', draws[i'][j'], p)
        invariant forall j' :: 0 <= j' < j ==> NoisyPixel(noisy, img, i, j', draws[i][j'], p)
        invariant channels == 3 || forall i', j' :: 0 <= i' < i && 0 <= j' < columns ==> !Replaces(draws[i'][j'], p)
        invariant channels == 3 || forall j' :: 0 <= j' < j ==> !Replaces(draws[i][j'], p)
      {
        var r := draws[i][j];
        if r < p / 2.0 {
          if channels != 3 {
            assert Replaces(draws[i][j], p);
            ok := false;
            return;
          }
          FillPixel(noisy, i, j, 0);
        } else if r < p {
          if channels != 3 {
            assert Replaces(draws[i][j], p);
            ok := false;
            return;
          }
          FillPixel(noisy, i, j, 255);
        } else {
          CopyPixel(noisy, img, i, j);
        }
        assert NoisyPixel(noisy, img, i, j, r, p);
      }
    }
    forall i, j, k | 0 <= i < rows && 0 <= j < columns && 0 <= k < channels && p <= 0.0
      ensures noisy[i, j, k] == img[i, j, k]
    {
      assert NoisyPixel(noisy, img, i, j, draws[i][j], p);
    }
  }

  /** The call without a noise probability, which uses DefaultNoiseProbability. */
  method AddDefaultSaltAndPepperNoise(img: array3<uint8>, draws: seq<seq<real>>)
    returns (ok: bool, noisy: array3<uint8>)
    requires IsDrawGrid(draws, img.Length0, img.Length1)
    ensures fresh(noisy)
    ensures noisy.Length0 == img.Length0 && noisy.Length1 == img.Length1 && noisy.Length2 == img.Length2
    ensures ok <==> (img.Length2 == 3 ||
                     forall i, j :: 0 <= i < img.Length0 && 0 <= j < img.Length1 ==>
                       !Replaces(draws[i][j], DefaultNoiseProbability))
    ensures ok ==> forall i, j :: 0 <= i < img.Length0 && 0 <= j < img.Length1 ==>
      NoisyPixel(noisy, img, i, j, draws[i][j], DefaultNoiseProbability)
  {
    ok, noisy := AddSaltAndPepperNoise(img, DefaultNoiseProbability, draws);
  }
}
