# Grayscale transform of Photoshop.Engine

This project models `ImageManipulator.ApplyGrayScaleTo`, the grayscale point
transform of the image-processing engine. The method works in four steps:

- It locks a GDI+ bitmap.
- It copies `|stride| * height` bytes of pixel memory into a managed buffer `rgbValues`.
- It walks the buffer three bytes at a time. Every consecutive byte triple is replaced by three copies of its truncated mean `(r + g + b) / 3` in a fresh `result` buffer.
- It copies `result` back over the bitmap.

The model has two modules.

- `ImageManipulator` (`image_manipulator.dfy`) is the code as written.
  - `Gray` is a pure function on byte sequences that specifies the transform.
  - `GrayScaleBuffer` is the byte loop as an imperative method with a `while` loop over a new array. It is proved equal to `Gray`.
  - A loop that reads past the end of the buffer raises an error. This is modelled as a `Failure(IndexOutOfRange(index))` result.
  - `Bitmap` is a class holding the locked bitmap's `stride`, `height` and `scan0` pixel memory.
  - `ApplyGrayScaleTo` is the whole method: copy in, run the loop, copy back.
  - The lemmas cover:
    - the pointwise meaning of `Gray`;
    - that each triple is independent of the others;
    - that the output is gray;
    - that the transform is idempotent;
    - that its fixed points are exactly the gray buffers.
- `GrayScaleByPixel` (`gray_scale_by_pixel.dfy`) is the transform as the bitmap's layout calls for it.
  - It works row by row and pixel by pixel. It uses the GDI+ row pitch (rows padded to a multiple of four bytes), with three or four bytes per pixel.
  - It grays the three colour channels and keeps alpha and the row padding.
  - It includes the inputs on which the byte-triple loop goes wrong (see "## Findings").
  - It includes a proof that on three-byte pixels without padding the per-pixel transform equals `Gray`.

The code ignores the pixel format and the row padding and works on byte
triples. A transform that respects the pixel format would gray each pixel's
colour channels and keep alpha and row padding. That is this model's own
reading of the intent (the "evidently intended" column of "## Findings"), and
it is `GrayScaleByPixel.GrayImage`. `ImageManipulator` follows the code.

C# semantics written out:

- `byte + byte` is promoted to `int`. The sum is non-negative, so `/ 3` truncates, which is the same as Dafny's division.
- The `(byte)` cast is unchecked. It is modelled as `ToByte(x) = x % 256`, and `GrayLevel`'s result type shows that it never wraps.
- An out-of-range array read throws `IndexOutOfRangeException`. The index it faults on is always the buffer length. The write-back is then never reached, so the bitmap's bytes are left as they were.

## Model

| member | source | states |
|---|---|---|
| ImageManipulator.Abs | Photoshop.Engine/ImageManipulator.cs:20 | `Math.Abs` of the row pitch is the pitch or its negation, and never negative |
| ImageManipulator.ToByte | Photoshop.Engine/ImageManipulator.cs:34-36 | the unchecked `(byte)` cast of an `int` is the identity on every value from 0 to 255 |
| ImageManipulator.GrayLevel | Photoshop.Engine/ImageManipulator.cs:32 | the gray level is the truncated mean: `3*gray <= r+g+b < 3*gray+3`; its result type `byte` bounds it to 0..255, so the casts never wrap |
| ImageManipulator.GrayLevelBetween | Photoshop.Engine/ImageManipulator.cs:32 | the gray level lies between the smallest and the largest of the three bytes |
| ImageManipulator.Gray | Photoshop.Engine/ImageManipulator.cs:20-22 | the transformed buffer has exactly the input's length |
| ImageManipulator.GrayAt | Photoshop.Engine/ImageManipulator.cs:26-36 | every byte `k` of the output equals the gray level of the input triple starting at `k - k % 3`, and that triple lies inside the buffer |
| ImageManipulator.GrayLocal | Photoshop.Engine/ImageManipulator.cs:26-37 | two inputs that agree on the triple holding byte `k` give the same output byte `k` |
| ImageManipulator.GrayAppend | Photoshop.Engine/ImageManipulator.cs:26-37 | the transform of two concatenated triple-aligned buffers is the concatenation of their transforms |
| ImageManipulator.GraySplit | Photoshop.Engine/ImageManipulator.cs:26-37 | cutting the input at a triple boundary cuts the output at the same place |
| ImageManipulator.GrayReplacePixel | Photoshop.Engine/ImageManipulator.cs:26-37 | replacing one input triple replaces the same output triple by that triple's gray and leaves every other output byte unchanged |
| ImageManipulator.GrayIsGray | Photoshop.Engine/ImageManipulator.cs:34-36 | in the output, all three bytes of every triple are equal |
| ImageManipulator.GrayFixedPoints | Photoshop.Engine/ImageManipulator.cs:32-36 | a buffer is left unchanged exactly when its triples are already gray (both directions) |
| ImageManipulator.GrayIdempotent | Photoshop.Engine/ImageManipulator.cs:32-36 | applying the transform to its own output returns that output |
| ImageManipulator.GrayScaleBuffer | Photoshop.Engine/ImageManipulator.cs:20-37 | the loop succeeds exactly when the length is a multiple of three, and then fills a buffer separate from the input, of the same length, whose every byte is `Gray` of the input; otherwise it fails reading index `length`; the input is only read (no `modifies`) |
| ImageManipulator.Bitmap.constructor | Photoshop.Engine/ImageManipulator.cs:15-20 | a locked bitmap's pixel memory holds `|stride| * height` bytes |
| ImageManipulator.ApplyGrayScaleTo | Photoshop.Engine/ImageManipulator.cs:13-41 | it passes exactly when the locked length is a multiple of three, and the bitmap's bytes become `Gray` of their old value; when it throws at index `length`, the bytes are unchanged |
| GrayScaleByPixel.GdiStride | Photoshop.Engine/ImageManipulator.cs:16-20 | the row pitch that GDI+ reports after locking is a multiple of four and the smallest that holds a row of pixels |
| GrayScaleByPixel.GrayPixel | Photoshop.Engine/ImageManipulator.cs:28-36 | a pixel made gray: its first three bytes become the gray level of its colour channels, and the rest (alpha) is kept |
| GrayScaleByPixel.GrayRow | Photoshop.Engine/ImageManipulator.cs:26-37 | graying a row's pixels keeps the row's length |
| GrayScaleByPixel.GrayImage | Photoshop.Engine/ImageManipulator.cs:20-37 | graying an image pixel by pixel keeps its length |
| GrayScaleByPixel.GrayRowAt | Photoshop.Engine/ImageManipulator.cs:26-36 | byte `c` of the pixel at offset `p` of a row becomes the pixel's gray level for a colour channel and is kept otherwise |
| GrayScaleByPixel.GrayRowPadding | Photoshop.Engine/ImageManipulator.cs:26-37 | a row's bytes after its last pixel are kept |
| GrayScaleByPixel.GrayImagePaddingAt | Photoshop.Engine/ImageManipulator.cs:20-37 | the padding of the row at offset `b` of the image is kept |
| GrayScaleByPixel.GrayImageAt | Photoshop.Engine/ImageManipulator.cs:20-37 | byte `c` of the pixel at offset `q` of the row at offset `b` is grayed for a colour channel and kept for alpha |
| GrayScaleByPixel.GrayImagePixel | Photoshop.Engine/ImageManipulator.cs:20-37 | for every valid layout, byte `c` of pixel `x` in row `y` lies in the buffer, and becomes that pixel's gray level when `c < 3` and is kept when it is alpha |
| GrayScaleByPixel.GrayImagePadding | Photoshop.Engine/ImageManipulator.cs:20-37 | for every valid layout, the padding bytes after each row's last pixel are kept |
| GrayScaleByPixel.GrayPixelTriple | Photoshop.Engine/ImageManipulator.cs:28-36 | on a three-byte pixel the per-pixel transform is `Gray` |
| GrayScaleByPixel.GrayRowPacked | Photoshop.Engine/ImageManipulator.cs:26-37 | a row of three-byte pixels without padding is grayed exactly as `Gray` does |
| GrayScaleByPixel.GrayImagePackedRows | Photoshop.Engine/ImageManipulator.cs:20-37 | an image of rows of three-byte pixels without padding has a length that is a multiple of three, and is grayed exactly as `Gray` does |
| GrayScaleByPixel.GrayImagePacked | Photoshop.Engine/ImageManipulator.cs:20-37 | when `stride == 3 * width`, the byte-triple loop and the per-pixel transform agree |
| GrayScaleByPixel.PaddedPixelThrows | Photoshop.Engine/ImageManipulator.cs:20-30 | on a 1×1 24-bit bitmap (stride 4) holding `[10, 20, 60, 7]`, `ApplyGrayScaleTo` throws, reading index 4, and the bitmap keeps its bytes |
| GrayScaleByPixel.PaddedPixelCorrected | Photoshop.Engine/ImageManipulator.cs:20-37 | the same bitmap grayed per pixel: `[10, 20, 60, 7]` becomes `[30, 30, 30, 7]` |
| GrayScaleByPixel.ArgbRowThrows | Photoshop.Engine/ImageManipulator.cs:20-30 | on a 2×1 32-bit bitmap (stride 8) holding `[10, 20, 60, 255, 30, 30, 30, 128]`, `ApplyGrayScaleTo` throws, reading index 8, and the bitmap keeps its bytes |
| GrayScaleByPixel.AlphaOverwritten | Photoshop.Engine/ImageManipulator.cs:26-36 | on three 32-bit pixels the loop turns the first alpha byte 255 into 115, while the per-pixel transform keeps it at 255 |

## Left out

- `LockBits`, `UnlockBits` and `Marshal.Copy` (Photoshop.Engine/ImageManipulator.cs:15-24, 39-40) are native-memory interop.
  - The locked memory is the array `Bitmap.scan0`.
  - The two copies are element-wise array copies.
  - The bitmap staying locked after the exception (`UnlockBits` is skipped) is not modelled.
- Abs: the 32-bit arithmetic of Photoshop.Engine/ImageManipulator.cs:20 is not modelled. `Math.Abs(int.MinValue)` throws, `Math.Abs(stride) * height` wraps as an unchecked `int` product, and a negative length makes `new byte[...]` throw. The model computes the length on unbounded integers. No bitmap that GDI+ can allocate reaches these cases.
- Bitmap: the rectangle, pixel format and `Scan0` address of the GDI+ bitmap are not modelled. A bottom-up bitmap (negative stride) is modelled only through `Math.Abs(stride)`, because the loop uses nothing else.
- GrayScaleBuffer: an exception is modelled as a returned `Failure`, not as control flow that unwinds the caller. The writes of the partial last iteration are not observable, because `result` is discarded.
- The other engine operations that the user interface calls have no bodies in the repository, so they are not part of this model. These are the low and high pass filters, the Sobel, Prewitt and Roberts operators, bitwise combination and the histogram.
- `Photoshop.Engine/ImageStructure.cs`, `Photoshop.Engine/BitmapHelper.cs`, `Photoshop.Engine/Pixel.cs` and the user interface files are not part of this model. They are interop, encoding, floating-point and display code.
- GrayScaleByPixel: only the top-down layout is modelled. Pixels are at least three bytes, with colour channels first. Other pixel formats (16-bit, indexed) are not modelled.

## Findings

| source | as written | input that shows it | evidently intended | confidence | as-written member | corrected member |
|---|---|---|---|---|---|---|
| Photoshop.Engine/ImageManipulator.cs:20-30 | the loop walks all `|stride| * height` locked bytes in triples, including the padding GDI+ adds to make each row a multiple of four bytes, and has no guard for `i + 1` and `i + 2` | a 1×1 24-bit bitmap: stride 4, so 4 bytes; the second iteration reads `rgbValues[4]` and throws | gray each pixel of each row and skip the row padding | not executed | GrayScaleByPixel.PaddedPixelThrows | GrayScaleByPixel.PaddedPixelCorrected |
| Photoshop.Engine/ImageManipulator.cs:26-36 | every three consecutive bytes are treated as one pixel whatever the pixel format | three 32-bit pixels `[10,20,30,255, 40,50,60,255, 70,80,90,255]`: the second triple is bytes 3..5 `(255, 40, 50)`, so the first pixel's alpha becomes 115 | gray the three colour channels of each four-byte pixel and keep its alpha | not executed | GrayScaleByPixel.AlphaOverwritten | GrayScaleByPixel.GrayImagePixel |
| Photoshop.Engine/ImageManipulator.cs:20-30 | the loop has no guard for `i + 1` and `i + 2`, and every bitmap the application loads is 32-bit: `LoadImage` (Photoshop/MainWindowViewModel.cs:33, 287) passes it through `BitmapHelper.Fix`, which draws it into `new Bitmap(w, h)` (Photoshop.Engine/BitmapHelper.cs:64-66), whose format is 32-bit ARGB; so the loop throws whenever `width * height` is not a multiple of three | a 2×1 bitmap: stride 8, so 8 bytes; the third iteration reads `rgbValues[8]` and throws | gray each pixel's colour channels and keep its alpha, for any pixel count | not executed | GrayScaleByPixel.ArgbRowThrows | GrayScaleByPixel.GrayImagePixel |
