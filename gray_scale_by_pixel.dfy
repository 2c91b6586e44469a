/*
 * The grayscale transform as the bitmap's layout calls for it: row by row,
 * pixel by pixel, with `bytesPerPixel` bytes per pixel and `stride` bytes per
 * row.  The first three bytes of each pixel (its color channels) become their
 * gray level; a fourth byte (alpha) and the padding at the end of each row are
 * kept.  Beside it: the layouts on which the byte-triple loop of
 * ImageManipulator goes wrong, and the one layout (three bytes per pixel, no
 * padding) on which the two agree.
 */
module GrayScaleByPixel {
  import opened ImageManipulator

  /**
   * GDI+'s row pitch for a bitmap `width` pixels wide: rows are padded to a
   * multiple of four bytes.
   */
  function GdiStride(width: nat, bitsPerPixel: nat): (stride: nat)
    ensures stride % 4 == 0
    ensures width * bitsPerPixel <= 8 * stride < width * bitsPerPixel + 32
  {
    (width * bitsPerPixel + 31) / 32 * 4
  }

  /** One pixel with its three color channels set to their gray level. */
  function GrayPixel(pixel: seq<byte>): (r: seq<byte>)
    requires |pixel| >= 3
    ensures |r| == |pixel| && r[3..] == pixel[3..]
    ensures r[0] == r[1] == r[2] == GrayLevel(pixel[0], pixel[1], pixel[2])
  {
    var g := GrayLevel(pixel[0], pixel[1], pixel[2]);
    [g, g, g] + pixel[3..]
  }

  /**
   * The first `count` pixels of `row`, each `bytesPerPixel` bytes long, made
   * gray; the bytes after them (the row's padding) kept.  A row too short for
   * its pixels is kept from the first pixel that does not fit; no valid
   * layout reaches that case.
   */
  function GrayRow(row: seq<byte>, count: nat, bytesPerPixel: nat): (r: seq<byte>)
    requires bytesPerPixel >= 3
    ensures |r| == |row|
    decreases count
  {
    if count == 0 || |row| < bytesPerPixel then row
    else GrayPixel(row[..bytesPerPixel]) + GrayRow(row[bytesPerPixel..], count - 1, bytesPerPixel)
  }

  /**
   * A top-down image of `height` rows of `stride` bytes, each row holding
   * `width` pixels of `bytesPerPixel` bytes, with every pixel made gray.
   */
  function GrayImage(s: seq<byte>, width: nat, height: nat, stride: nat, bytesPerPixel: nat): (r: seq<byte>)
    requires bytesPerPixel >= 3
    ensures |r| == |s|
    decreases height
  {
    if height == 0 || |s| < stride then s
    else GrayRow(s[..stride], width, bytesPerPixel) + GrayImage(s[stride..], width, height - 1, stride, bytesPerPixel)
  }

  /**
   * A locked bitmap's memory: `height` rows of `stride` bytes, each wide
   * enough for `width` pixels of at least three bytes.
   */
  predicate ValidLayout(length: nat, width: nat, height: nat, stride: nat, bytesPerPixel: nat)
  {
    bytesPerPixel >= 3 && width * bytesPerPixel <= stride && length == height * stride
  }

  lemma ProductStep(x: nat, n: nat)
    requires x > 0
    ensures 0 <= (x - 1) * n && (x - 1) * n + n == x * n
  {
  }

  lemma ProductMonotone(x: nat, y: nat, n: nat)
    requires x <= y
    ensures 0 <= x * n <= y * n
  {
  }

  lemma SumOfTriples(a: nat, b: nat)
    requires a % 3 == 0 && b % 3 == 0
    ensures (a + b) % 3 == 0
  {
  }

  /**
   * `p` is where one of the first `count` blocks of `size` bytes starts: a
   * pixel in a row, or a row in an image.
   */
  ghost predicate BlockAt(p: nat, count: nat, size: nat)
    decreases count
  {
    count > 0 && (p == 0 || (p >= size && BlockAt(p - size, count - 1, size)))
  }

  lemma {:induction false} BlockAtOffset(x: nat, count: nat, size: nat)
    requires x < count
    ensures BlockAt(x * size, count, size)
    decreases x
  {
    if x > 0 {
      BlockAtOffset(x - 1, count - 1, size);
      ProductStep(x, size);
    }
  }

  lemma {:induction false} BlockAtBound(p: nat, count: nat, size: nat)
    requires BlockAt(p, count, size)
    ensures p + size <= count * size
    decreases count
  {
    ProductStep(count, size);
    if p > 0 {
      BlockAtBound(p - size, count - 1, size);
    }
  }

  /** Byte `c` of the pixel at offset `p` of a row, made gray or kept. */
  lemma {:induction false} GrayRowAt(row: seq<byte>, count: nat, bytesPerPixel: nat, p: nat, c: nat)
    requires bytesPerPixel >= 3 && BlockAt(p, count, bytesPerPixel)
    requires p + bytesPerPixel <= |row| && c < bytesPerPixel
    ensures GrayRow(row, count, bytesPerPixel)[p + c]
              == if c < 3 then GrayLevel(row[p], row[p + 1], row[p + 2]) else row[p + c]
    decreases count
  {
    var n := bytesPerPixel;
    var head, rest := row[..n], row[n..];
    assert GrayRow(row, count, n) == GrayPixel(head) + GrayRow(rest, count - 1, n);
    if p == 0 {
      if c >= 3 {
        assert GrayPixel(head)[c] == GrayPixel(head)[3..][c - 3] == head[3..][c - 3];
      }
    } else {
      GrayRowAt(rest, count - 1, n, p - n, c);
      assert rest[p - n] == row[p] && rest[p - n + 1] == row[p + 1] && rest[p - n + 2] == row[p + 2];
    }
  }

  /** The padding after the last pixel of a row is kept. */
  lemma {:induction false} GrayRowPadding(row: seq<byte>, count: nat, bytesPerPixel: nat, k: nat)
    requires bytesPerPixel >= 3 && count * bytesPerPixel <= k < |row|
    ensures GrayRow(row, count, bytesPerPixel)[k] == row[k]
    decreases count
  {
    if count > 0 {
      var n := bytesPerPixel;
      ProductStep(count, n);
      GrayRowPadding(row[n..], count - 1, n, k - n);
    }
  }

  /** Byte `k` of the row at offset `b`, past the row's last pixel, is kept. */
  lemma {:induction false} GrayImagePaddingAt(s: seq<byte>, width: nat, height: nat, stride: nat, bytesPerPixel: nat, b: nat, k: nat)
    requires bytesPerPixel >= 3 && BlockAt(b, height, stride)
    requires b + stride <= |s| && width * bytesPerPixel <= k < stride
    ensures GrayImage(s, width, height, stride, bytesPerPixel)[b + k] == s[b + k]
    decreases height
  {
    var row, rest := s[..stride], s[stride..];
    var n := bytesPerPixel;
    var image := GrayImage(s, width, height, stride, n);
    var restImage := GrayImage(rest, width, height - 1, stride, n);
    assert image == GrayRow(row, width, n) + restImage;
    if b == 0 {
      assert image[k] == row[k] by {
        GrayRowPadding(row, width, n, k);
      }
    } else {
      var b' := b - stride;
      assert image[b + k] == restImage[b' + k];
      assert restImage[b' + k] == rest[b' + k] by {
        GrayImagePaddingAt(rest, width, height - 1, stride, n, b', k);
      }
    }
  }

  /** Byte `c` of the pixel at offset `q` of the row at offset `b`, made gray or kept. */
  lemma {:induction false} GrayImageAt(s: seq<byte>, width: nat, height: nat, stride: nat, bytesPerPixel: nat, b: nat, q: nat, c: nat)
    requires bytesPerPixel >= 3 && BlockAt(b, height, stride) && BlockAt(q, width, bytesPerPixel)
    requires b + stride <= |s| && q + bytesPerPixel <= stride && c < bytesPerPixel
    ensures GrayImage(s, width, height, stride, bytesPerPixel)[b + q + c]
              == if c < 3 then GrayLevel(s[b + q], s[b + q + 1], s[b + q + 2]) else s[b + q + c]
    decreases height
  {
    var row, rest := s[..stride], s[stride..];
    var n := bytesPerPixel;
    var image := GrayImage(s, width, height, stride, n);
    var restImage := GrayImage(rest, width, height - 1, stride, n);
    assert image == GrayRow(row, width, n) + restImage;
    if b == 0 {
      assert image[q + c] == if c < 3 then GrayLevel(row[q], row[q + 1], row[q + 2]) else row[q + c] by {
        GrayRowAt(row, width, n, q, c);
      }
      assert row[q] == s[q] && row[q + 1] == s[q + 1] && row[q + 2] == s[q + 2] && row[q + c] == s[q + c];
    } else {
      var b' := b - stride;
      assert image[b + q + c] == restImage[b' + q + c];
      assert restImage[b' + q + c] == if c < 3 then GrayLevel(rest[b' + q], rest[b' + q + 1], rest[b' + q + 2]) else rest[b' + q + c] by {
        GrayImageAt(rest, width, height - 1, stride, n, b', q, c);
      }
      assert rest[b' + q] == s[b + q] && rest[b' + q + 1] == s[b + q + 1] && rest[b' + q + 2] == s[b + q + 2];
      assert rest[b' + q + c] == s[b + q + c];
    }
  }

  /** Where pixel `x` of row `y` starts, as blocks of a row and of an image. */
  lemma PixelOffsets(width: nat, height: nat, stride: nat, bytesPerPixel: nat, x: nat, y: nat)
    requires width * bytesPerPixel <= stride && x < width && y < height
    ensures 0 <= x * bytesPerPixel && BlockAt(x * bytesPerPixel, width, bytesPerPixel)
    ensures x * bytesPerPixel + bytesPerPixel <= stride
    ensures 0 <= y * stride && BlockAt(y * stride, height, stride)
    ensures y * stride + stride <= height * stride
  {
    ProductMonotone(0, x, bytesPerPixel);
    BlockAtOffset(x, width, bytesPerPixel);
    BlockAtBound(x * bytesPerPixel, width, bytesPerPixel);
    ProductMonotone(0, y, stride);
    BlockAtOffset(y, height, stride);
    BlockAtBound(y * stride, height, stride);
  }

  /**
   * The intended behaviour on a pixel: byte `c` of pixel `x` in row `y`
   * becomes the pixel's gray level when it is a color channel and is kept
   * when it is alpha.  Every byte read lies inside the image.
   */
  lemma GrayImagePixel(s: seq<byte>, width: nat, height: nat, stride: nat, bytesPerPixel: nat, x: nat, y: nat, c: nat)
    requires ValidLayout(|s|, width, height, stride, bytesPerPixel)
    requires x < width && y < height && c < bytesPerPixel
    ensures 0 <= y * stride && 0 <= x * bytesPerPixel
    ensures y * stride + x * bytesPerPixel + bytesPerPixel <= |s|
    ensures var p := y * stride + x * bytesPerPixel;
            GrayImage(s, width, height, stride, bytesPerPixel)[p + c]
              == if c < 3 then GrayLevel(s[p], s[p + 1], s[p + 2]) else s[p + c]
  {
    var b, q := y * stride, x * bytesPerPixel;
    assert 0 <= b && 0 <= q && b + q + bytesPerPixel <= |s|
        && GrayImage(s, width, height, stride, bytesPerPixel)[b + q + c]
             == if c < 3 then GrayLevel(s[b + q], s[b + q + 1], s[b + q + 2]) else s[b + q + c] by {
      PixelOffsets(width, height, stride, bytesPerPixel, x, y);
      GrayImageAt(s, width, height, stride, bytesPerPixel, b, q, c);
    }
  }

  /** The intended behaviour on padding: the bytes after a row's last pixel are kept. */
  lemma GrayImagePadding(s: seq<byte>, width: nat, height: nat, stride: nat, bytesPerPixel: nat, y: nat, k: nat)
    requires ValidLayout(|s|, width, height, stride, bytesPerPixel)
    requires y < height && width * bytesPerPixel <= k < stride
    ensures 0 <= y * stride && y * stride + stride <= |s|
    ensures GrayImage(s, width, height, stride, bytesPerPixel)[y * stride + k] == s[y * stride + k]
  {
    var b := y * stride;
    ProductMonotone(0, y, stride);
    BlockAtOffset(y, height, stride);
    BlockAtBound(b, height, stride);
    GrayImagePaddingAt(s, width, height, stride, bytesPerPixel, b, k);
  }

  /** A three-byte pixel is one triple. */
  lemma GrayPixelTriple(pixel: seq<byte>)
    requires |pixel| == 3
    ensures GrayPixel(pixel) == Gray(pixel)
  {
    var g := GrayLevel(pixel[0], pixel[1], pixel[2]);
    assert pixel[3..] == [];
    assert Gray(pixel) == [g, g, g] + Gray([]);
  }

  /** On three bytes per pixel and no padding, a row is a run of triples. */
  lemma {:induction false} GrayRowPacked(row: seq<byte>, count: nat)
    requires |row| == 3 * count
    ensures GrayRow(row, count, 3) == Gray(row)
    decreases count
  {
    if count > 0 {
      var pixel, rest := row[..3], row[3..];
      assert GrayRow(row, count, 3) == GrayPixel(pixel) + GrayRow(rest, count - 1, 3);
      assert GrayRow(rest, count - 1, 3) == Gray(rest) by {
        GrayRowPacked(rest, count - 1);
      }
      assert GrayPixel(pixel) == Gray(pixel) by {
        GrayPixelTriple(pixel);
      }
      assert Gray(row) == Gray(pixel) + Gray(rest) by {
        GraySplit(row, 3);
      }
    }
  }

  /** `length` bytes are exactly `height` rows of `stride` bytes. */
  ghost predicate Rows(length: nat, height: nat, stride: nat)
    decreases height
  {
    if height == 0 then length == 0 else length >= stride && Rows(length - stride, height - 1, stride)
  }

  lemma {:induction false} RowsOfProduct(height: nat, stride: nat)
    ensures Rows(height * stride, height, stride)
    decreases height
  {
    if height > 0 {
      ProductStep(height, stride);
      RowsOfProduct(height - 1, stride);
    }
  }

  lemma {:induction false} GrayImagePackedRows(s: seq<byte>, width: nat, height: nat, stride: nat)
    requires stride == 3 * width && Rows(|s|, height, stride)
    ensures |s| % 3 == 0
    ensures GrayImage(s, width, height, stride, 3) == Gray(s)
    decreases height
  {
    if height > 0 {
      var row, rest := s[..stride], s[stride..];
      GrayImagePackedRows(rest, width, height - 1, stride);
      assert |s| % 3 == 0 by {
        assert |row| == 3 * width;
        SumOfTriples(|row|, |rest|);
      }
      assert GrayImage(s, width, height, stride, 3) == GrayRow(row, width, 3) + GrayImage(rest, width, height - 1, stride, 3);
      GrayRowPacked(row, width);
      assert Gray(s) == Gray(row) + Gray(rest) by {
        GraySplit(s, stride);
      }
    }
  }

  /**
   * The byte-triple loop is right exactly on a bitmap of three bytes per
   * pixel without row padding: there the per-pixel transform and Gray agree.
   */
  lemma GrayImagePacked(s: seq<byte>, width: nat, height: nat, stride: nat)
    requires stride == 3 * width && |s| == height * stride
    ensures |s| % 3 == 0
    ensures GrayImage(s, width, height, stride, 3) == Gray(s)
  {
    RowsOfProduct(height, stride);
    GrayImagePackedRows(s, width, height, stride);
  }

  /**
   * A one-pixel 24-bit bitmap: GDI+ pads its row to four bytes, so the
   * byte-triple loop throws and the bitmap keeps its bytes.
   */
  method PaddedPixelThrows() returns (outcome: Outcome, pixels: seq<byte>)
    ensures outcome == Fail(IndexOutOfRange(4))
    ensures pixels == [10, 20, 60, 7]
  {
    var image := new Bitmap(1, 1, GdiStride(1, 24));
    image.scan0[0], image.scan0[1], image.scan0[2], image.scan0[3] := 10, 20, 60, 7;
    outcome := ApplyGrayScaleTo(image);
    pixels := image.scan0[..];
  }

  /** The same one-pixel bitmap grayed pixel by pixel: the padding byte is kept. */
  lemma PaddedPixelCorrected()
    ensures GrayImage([10, 20, 60, 7], 1, 1, GdiStride(1, 24), 3) == [30, 30, 30, 7]
  {
    var s: seq<byte> := [10, 20, 60, 7];
    var r := GrayImage(s, 1, 1, 4, 3);
    GrayImagePixel(s, 1, 1, 4, 3, 0, 0, 0);
    GrayImagePixel(s, 1, 1, 4, 3, 0, 0, 1);
    GrayImagePixel(s, 1, 1, 4, 3, 0, 0, 2);
    GrayImagePadding(s, 1, 1, 4, 3, 0, 3);
    assert r == [r[0], r[1], r[2], r[3]];
  }

  /**
   * A 2x1 32-bit bitmap, the format of every bitmap the application loads:
   * eight bytes, not a multiple of three, so the byte-triple loop throws.
   */
  method ArgbRowThrows() returns (outcome: Outcome, pixels: seq<byte>)
    ensures outcome == Fail(IndexOutOfRange(8))
    ensures pixels == [10, 20, 60, 255, 30, 30, 30, 128]
  {
    var image := new Bitmap(2, 1, GdiStride(2, 32));
    image.scan0[0], image.scan0[1], image.scan0[2], image.scan0[3] := 10, 20, 60, 255;
    image.scan0[4], image.scan0[5], image.scan0[6], image.scan0[7] := 30, 30, 30, 128;
    outcome := ApplyGrayScaleTo(image);
    pixels := image.scan0[..];
  }

  /**
   * Three 32-bit pixels in one row: twelve bytes, so the loop does not throw,
   * but its triples straddle pixels and overwrite the first pixel's alpha,
   * which the per-pixel transform keeps.
   */
  lemma AlphaOverwritten()
    ensures var s: seq<byte> := [10, 20, 30, 255, 40, 50, 60, 255, 70, 80, 90, 255];
            Gray(s)[3] == 115 && GrayImage(s, 3, 1, 12, 4)[3] == 255
  {
    var s: seq<byte> := [10, 20, 30, 255, 40, 50, 60, 255, 70, 80, 90, 255];
    GrayAt(s, 3);
    GrayImagePixel(s, 3, 1, 12, 4, 0, 0, 3);
  }
}
