/*
 * Model of the grayscale point transform of Photoshop.Engine.ImageManipulator.
 *
 * ApplyGrayScaleTo locks the bitmap, copies its pixel memory into a managed
 * byte buffer, replaces every consecutive byte triple by three copies of the
 * triple's truncated mean, and copies the buffer back.  The byte loop is
 * GrayScaleBuffer; the whole operation on a bitmap is ApplyGrayScaleTo; the
 * specification of both is the function Gray.
 */
module ImageManipulator {

  /** An unsigned 8-bit value, C#'s `byte`. */
  type byte = x: int | 0 <= x < 256

  /** The exception the loop can raise: an array read at `index`, past the end. */
  datatype Error = IndexOutOfRange(index: int)

  datatype Result<T> = Success(value: T) | Failure(error: Error)

  /** A call to a `void` method: it returns normally or throws. */
  datatype Outcome = Pass | Fail(error: Error)

  /** `Math.Abs` on the row pitch, on unbounded integers. */
  function Abs(x: int): (a: nat)
    ensures a == x || a == -x
  {
    if x < 0 then -x else x
  }

  /** C#'s unchecked `(byte)` conversion of an `int`: keeps the low eight bits. */
  function ToByte(x: int): (b: byte)
    ensures 0 <= x < 256 ==> b == x
  {
    x % 256
  }

  function Min3(a: int, b: int, c: int): int
  {
    if a <= b && a <= c then a else if b <= c then b else c
  }

  function Max3(a: int, b: int, c: int): int
  {
    if a >= b && a >= c then a else if b >= c then b else c
  }

  /**
   * The gray level of one pixel: `(r + g + b) / 3`, computed on `int` (C#
   * promotes the three bytes) and truncated, which for a non-negative sum is
   * the floor.  It always fits in a byte.
   */
  function GrayLevel(r: byte, g: byte, b: byte): (gray: byte)
    ensures 3 * gray <= r + g + b < 3 * gray + 3
  {
    (r + g + b) / 3
  }

  /** The gray level lies between the darkest and the brightest channel. */
  lemma GrayLevelBetween(r: byte, g: byte, b: byte)
    ensures Min3(r, g, b) <= GrayLevel(r, g, b) <= Max3(r, g, b)
  {
  }

  /** The index of the first byte of the triple that byte `k` belongs to. */
  function PixelStart(k: nat): (p: nat)
    ensures p <= k < p + 3 && p % 3 == 0
  {
    k - k % 3
  }

  /** The bytes at offsets 0, 1 and 2 from the start of a triple belong to it. */
  lemma SamePixel(p: nat, c: nat)
    requires p % 3 == 0 && c < 3
    ensures PixelStart(p + c) == p
  {
  }

  lemma DifferenceOfTriples(a: nat, b: nat)
    requires a % 3 == 0 && b % 3 == 0 && b <= a
    ensures (a - b) % 3 == 0
  {
  }

  /** The gray level of the triple that holds byte `k` of `s`. */
  function GrayOfTripleAt(s: seq<byte>, k: nat): int
    requires PixelStart(k) + 2 < |s|
  {
    var p := PixelStart(k);
    GrayLevel(s[p], s[p + 1], s[p + 2])
  }

  /**
   * The buffer the loop leaves in `result`: each consecutive byte triple of
   * `s` replaced by three copies of its gray level, cast to a byte.  Defined
   * only when the triples tile `s` exactly; otherwise the loop throws.
   */
  function Gray(s: seq<byte>): (r: seq<byte>)
    requires |s| % 3 == 0
    ensures |r| == |s|
    decreases |s|
  {
    if s == [] then []
    else
      var g := GrayLevel(s[0], s[1], s[2]);
      [g, g, g] + Gray(s[3..])
  }

  /** Any two bytes of the same triple are equal: an already gray buffer. */
  ghost predicate IsGray(s: seq<byte>)
  {
    forall j, k :: 0 <= j < k < |s| && PixelStart(j) == PixelStart(k) ==> s[j] == s[k]
  }

  /**
   * Byte `k` of the result is the gray level of the triple that holds byte
   * `k` of the input, and the byte cast does not change it.
   */
  lemma {:induction false} GrayAt(s: seq<byte>, k: nat)
    requires |s| % 3 == 0 && k < |s|
    ensures PixelStart(k) + 2 < |s|
    ensures Gray(s)[k] == GrayOfTripleAt(s, k)
    decreases |s|
  {
    var g := GrayLevel(s[0], s[1], s[2]);
    assert Gray(s) == [g, g, g] + Gray(s[3..]);
    if k < 3 {
      assert PixelStart(k) == 0 by {
        SamePixel(0, k);
      }
    } else {
      var p := PixelStart(k);
      assert PixelStart(k - 3) == p - 3 by {
        SamePixel(p - 3, k - p);
        assert p - 3 + (k - p) == k - 3;
      }
      assert Gray(s[3..])[k - 3] == GrayOfTripleAt(s[3..], k - 3) by {
        GrayAt(s[3..], k - 3);
      }
      assert s[3..][p - 3] == s[p] && s[3..][p - 2] == s[p + 1] && s[3..][p - 1] == s[p + 2];
    }
  }

  /**
   * The result depends on the input one triple at a time: two buffers that
   * agree on the triple holding byte `k` give the same byte `k`.
   */
  lemma GrayLocal(s: seq<byte>, t: seq<byte>, k: nat)
    requires |s| == |t| && |s| % 3 == 0 && k < |s|
    requires PixelStart(k) + 3 <= |s|
    requires s[PixelStart(k)..PixelStart(k) + 3] == t[PixelStart(k)..PixelStart(k) + 3]
    ensures Gray(s)[k] == Gray(t)[k]
  {
    var p := PixelStart(k);
    assert s[p] == s[p..p + 3][0] && s[p + 1] == s[p..p + 3][1] && s[p + 2] == s[p..p + 3][2];
    assert t[p] == t[p..p + 3][0] && t[p + 1] == t[p..p + 3][1] && t[p + 2] == t[p..p + 3][2];
    GrayAt(s, k);
    GrayAt(t, k);
  }

  /** Gray works triple by triple, so it distributes over concatenation. */
  lemma {:induction false} GrayAppend(a: seq<byte>, b: seq<byte>)
    requires |a| % 3 == 0 && |b| % 3 == 0
    ensures Gray(a + b) == Gray(a) + Gray(b)
    decreases |a|
  {
    if a != [] {
      assert (a + b)[3..] == a[3..] + b;
      GrayAppend(a[3..], b);
    } else {
      assert a + b == b;
    }
  }

  /** Cutting the input between two triples cuts the output at the same place. */
  lemma GraySplit(s: seq<byte>, n: nat)
    requires |s| % 3 == 0 && n % 3 == 0 && n <= |s|
    ensures |s[n..]| % 3 == 0
    ensures Gray(s) == Gray(s[..n]) + Gray(s[n..])
  {
    assert |s[n..]| % 3 == 0 by {
      DifferenceOfTriples(|s|, n);
    }
    assert s == s[..n] + s[n..];
    GrayAppend(s[..n], s[n..]);
  }

  /**
   * Replacing the triple that starts at byte `n` of the input by `pixel`
   * replaces the same triple of the output by the gray of `pixel` and changes
   * nothing else.
   */
  lemma GrayReplacePixel(s: seq<byte>, n: nat, pixel: seq<byte>)
    requires |s| % 3 == 0 && n % 3 == 0 && n + 3 <= |s| && |pixel| == 3
    ensures |s[..n] + pixel + s[n + 3..]| == |s|
    ensures Gray(s[..n] + pixel + s[n + 3..]) == Gray(s)[..n] + Gray(pixel) + Gray(s)[n + 3..]
  {
    var pre, mid, post := s[..n], s[n..n + 3], s[n + 3..];
    assert |pre + mid| == |pre + pixel| == n + 3 && (n + 3) % 3 == 0;
    assert |post| % 3 == 0 by {
      DifferenceOfTriples(|s|, n + 3);
    }
    assert Gray(s) == Gray(pre) + Gray(mid) + Gray(post) by {
      assert s == pre + mid + post;
      GrayAppend(pre, mid);
      GrayAppend(pre + mid, post);
    }
    assert Gray(pre + pixel + post) == Gray(pre) + Gray(pixel) + Gray(post) by {
      GrayAppend(pre, pixel);
      GrayAppend(pre + pixel, post);
    }
  }

  /** The result of the transform is always gray. */
  lemma GrayIsGray(s: seq<byte>)
    requires |s| % 3 == 0
    ensures IsGray(Gray(s))
  {
    var r := Gray(s);
    forall j, k | 0 <= j < k < |r| && PixelStart(j) == PixelStart(k)
      ensures r[j] == r[k]
    {
      GrayAt(s, j);
      GrayAt(s, k);
    }
  }

  /** A buffer is left unchanged by the transform exactly when it is already gray. */
  lemma GrayFixedPoints(s: seq<byte>)
    requires |s| % 3 == 0
    ensures Gray(s) == s <==> IsGray(s)
  {
    if IsGray(s) {
      forall k | 0 <= k < |s|
        ensures Gray(s)[k] == s[k]
      {
        var p := PixelStart(k);
        GrayAt(s, k);
        SamePixel(p, 1);
        SamePixel(p, 2);
        assert s[p] == s[p + 1] == s[p + 2];
      }
    }
    if Gray(s) == s {
      GrayIsGray(s);
    }
  }

  /** Applying the transform to its own output returns that output. */
  lemma GrayIdempotent(s: seq<byte>)
    requires |s| % 3 == 0
    ensures Gray(Gray(s)) == Gray(s)
  {
    GrayIsGray(s);
    GrayFixedPoints(Gray(s));
  }

  /**
   * The byte loop of ApplyGrayScaleTo over the copied pixel memory
   * `rgbValues`.  It reads `rgbValues` only and fills a new `result` of the
   * same length.  When the length is not a multiple of three the last
   * iteration reads one past the end and throws.
   */
  method GrayScaleBuffer(rgbValues: array<byte>) returns (outcome: Result<array<byte>>)
    ensures outcome.Success? <==> rgbValues.Length % 3 == 0
    ensures outcome.Failure? ==> outcome.error == IndexOutOfRange(rgbValues.Length)
    ensures outcome.Success? ==>
              outcome.value != rgbValues &&
              outcome.value.Length == rgbValues.Length &&
              outcome.value[..] == Gray(rgbValues[..])
  {
    var pixelsLength := rgbValues.Length;
    ghost var s := rgbValues[..];
    var result := new byte[pixelsLength];
    var i := 0;
    while i < pixelsLength
      invariant 0 <= i <= pixelsLength && i % 3 == 0
      invariant forall k :: 0 <= k < i ==> PixelStart(k) + 2 < |s| && result[k] == GrayOfTripleAt(s, k)
    {
      var r := rgbValues[i];
      if i + 1 >= pixelsLength {
        return Failure(IndexOutOfRange(i + 1));
      }
      var g := rgbValues[i + 1];
      if i + 2 >= pixelsLength {
        return Failure(IndexOutOfRange(i + 2));
      }
      var b := rgbValues[i + 2];

      var gray: int := GrayLevel(r, g, b);
      assert PixelStart(i) == PixelStart(i + 1) == PixelStart(i + 2) == i by {
        SamePixel(i, 0);
        SamePixel(i, 1);
        SamePixel(i, 2);
      }

      result[i] := ToByte(gray);
      result[i + 1] := ToByte(gray);
      result[i + 2] := ToByte(gray);
      i := i + 3;
    }
    forall k | 0 <= k < pixelsLength
      ensures result[k] == Gray(s)[k]
    {
      GrayAt(s, k);
    }
    return Success(result);
  }

  /**
   * The part of a GDI+ bitmap that ApplyGrayScaleTo touches once its bits are
   * locked: the row pitch `stride` (negative for a bottom-up bitmap), the
   * number of rows, and the pixel memory starting at `Scan0`.
   */
  class Bitmap {
    const width: nat
    const height: nat
    const stride: int
    const scan0: array<byte>

    ghost predicate Valid()
    {
      scan0.Length == Abs(stride) * height
    }

    constructor (width: nat, height: nat, stride: int)
      ensures Valid() && fresh(scan0)
      ensures this.width == width && this.height == height && this.stride == stride
    {
      this.width := width;
      this.height := height;
      this.stride := stride;
      scan0 := new byte[Abs(stride) * height];
    }
  }

  /**
   * The whole operation: copy `|stride| * height` bytes out of the bitmap,
   * run the byte loop, and copy the result back over the bitmap's memory.
   * When the loop throws, the copy back is never reached and the bitmap's
   * bytes are as they were.
   */
  method ApplyGrayScaleTo(image: Bitmap) returns (outcome: Outcome)
    requires image.Valid()
    modifies image.scan0
    ensures outcome.Pass? <==> image.scan0.Length % 3 == 0
    ensures outcome.Pass? ==> image.scan0[..] == Gray(old(image.scan0[..]))
    ensures outcome.Fail? ==>
              outcome.error == IndexOutOfRange(image.scan0.Length) &&
              image.scan0[..] == old(image.scan0[..])
  {
    ghost var original := image.scan0[..];
    var pixelsLength := Abs(image.stride) * image.height;
    var rgbValues := new byte[pixelsLength];
    forall k | 0 <= k < pixelsLength {
      rgbValues[k] := image.scan0[k];
    }
    assert rgbValues[..] == original;

    var loop := GrayScaleBuffer(rgbValues);
    match loop
    case Failure(e) =>
      return Fail(e);
    case Success(result) =>
      ghost var grayed := result[..];
      forall k | 0 <= k < pixelsLength {
        image.scan0[k] := result[k];
      }
      assert grayed == Gray(original);
      assert image.scan0[..] == grayed;
      return Pass;
  }
}
