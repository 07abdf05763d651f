# Barcode reader scan pipeline, in Dafny

This project models the scanning core of a browser barcode reader. An image
is dropped on the page and arrives as an `ImageData`: a row-major RGBA byte
buffer. The reader first turns it grey and stretches its contrast. It then
asks a barcode decoder about eight variants of it: each rotation 0, 90, 180
and 270 degrees, first as is and then inverted. The first variant on which
the decoder finds a symbol wins. A page controller runs one such scan per
dropped image. It shows a scan's outcome only if no newer image was dropped
while the scan was running.

The project is in four modules:

- `PixelSpec` (`pixel_spec.dfy`) states the pixel transforms as functions on
  pixel sequences: `Grayscale`, `Normalized`, `Inverted` and `Rotate`. It also
  proves what each transform promises: grey output, alpha kept, the contrast
  stretch reaching 0 and 255, idempotence, inversion undoing itself, and
  rotations being exact pixel permutations that undo each other.
- `ImageProcessor` (`image_processor.dfy`) is the imperative image processor.
  - `ImageData` is a class over an `array` of bytes.
  - Every transform is a method with the source's loops. Each is proved to
    return a fresh buffer whose pixels are the matching `PixelSpec` function
    of the input.
- `BarcodeScanner` (`barcode_scanner.dfy`) models the scan search.
  - The decoder is a `Decoder` object. Its answer for each image is a fixed
    function, and it records every image it is asked about.
  - `ScanBarcode` is proved to return the outcome of `SearchFrom`, the
    first-success search over the eight attempts, and to ask the decoder
    about exactly the attempted images, in order.
- `App` (`main_session.dfy`) models the page controller.
  - `Page`, `Begin` and `Settle` describe the page state and the two halves
    of `handleImageReady`.
  - `Controller` is the module state. Its methods are proved to follow
    `Begin` and `Settle`.
  - Lemmas over arbitrary event sequences prove that the counter counts
    requests and that a superseded request never touches the page again.
    For two overlapping requests, the later one's outcome wins in either
    completion order.
- `Mul` (`arith.dfy`) holds the multiplication and division facts the
  index arithmetic needs.

A detail of the controller that the model keeps: each request captures its
own `stopAnimation`. Under reduced motion that function does nothing.
Suppose a full-motion request is superseded by a reduced-motion one. The
newest request's stop is the only one that runs, so the scanning classes
stay on the page (`Page.stopClears`; proved as
`App.ReducedMotionLeavesAnimation`).

## Model

| member | source | states |
|---|---|---|
| `ImageProcessor.ImageData.View` | src/scanner/image-processor.ts:3-4 | An `ImageData` of positive size holds `width * height` pixels of four bytes each. |
| `ImageProcessor.ImageData.constructor` | src/scanner/image-processor.ts:17 | The constructor wraps a buffer of `width * height * 4` bytes with the given dimensions. |
| `ImageProcessor.ToGrayscale` | src/scanner/image-processor.ts:3-18 | Returns a fresh image of the same size. Pixel `q` is grey at the luma of input pixel `q`, with its alpha kept. |
| `PixelSpec.GrayPixel` | src/scanner/image-processor.ts:8-14 | Defines one output pixel of `toGrayscale`: R, G and B all set to the pixel's luma, alpha copied. Its contract: the result is grey and keeps alpha. |
| `PixelSpec.Grayscale` | src/scanner/image-processor.ts:3-18 | Defines the pixels `toGrayscale` returns: `GrayPixel` of every input pixel, in order. Its contract: as many pixels as the input. |
| `PixelSpec.Luma` | src/scanner/image-processor.ts:8-10 | The luma is within one half of `0.299 R + 0.587 G + 0.114 B`, so it is that value rounded to the nearest integer. |
| `PixelSpec.GrayscaleIsGray` | src/scanner/image-processor.ts:11-14 | Grayscale output is grey, keeps alpha, and carries each pixel's luma. |
| `PixelSpec.GrayscaleOfGray` | src/scanner/image-processor.ts:8-13 | Converting an already grey image changes nothing. |
| `PixelSpec.LumaOfGray` | src/scanner/image-processor.ts:8-10 | The weights sum to one, so the luma of a grey pixel `(v, v, v)` is `v`. |
| `ImageProcessor.NormalizeContrast` | src/scanner/image-processor.ts:20-46 | Returns a fresh image whose pixels are `Normalized` of the input. When the red channel is uniform it is a byte-for-byte copy. |
| `ImageProcessor.RedRange` | src/scanner/image-processor.ts:23-29 | The scan from 255 and 0 ends at the red minimum and maximum that `RedMin` and `RedMax` define. |
| `ImageProcessor.StretchChannels` | src/scanner/image-processor.ts:36-43 | Each pixel's red value is stretched over `[min, min + range]` and written to R, G and B; alpha is kept. |
| `PixelSpec.RedMin` | src/scanner/image-processor.ts:23-29 | Defines the `min` accumulator after scanning the pixels left to right: it starts at 255 and takes each smaller red value. No contract of its own: `RedBounds`, `RedAttained` and `RedMinIs` state what it is. |
| `PixelSpec.RedMax` | src/scanner/image-processor.ts:23-29 | Defines the `max` accumulator the same way: it starts at 0 and takes each larger red value. No contract of its own: `RedBounds`, `RedAttained` and `RedMaxIs` state what it is. |
| `PixelSpec.RedBounds` | src/scanner/image-processor.ts:23-29 | Every red value lies between the two accumulators. |
| `PixelSpec.RedAttained` | src/scanner/image-processor.ts:23-29 | On a non-empty image both accumulators are red values of actual pixels. |
| `PixelSpec.RedMinIs` | src/scanner/image-processor.ts:23-29 | A red value no larger than any other is the minimum found. |
| `PixelSpec.RedMaxIs` | src/scanner/image-processor.ts:23-29 | A red value no smaller than any other is the maximum found. |
| `PixelSpec.StretchBound` | src/scanner/image-processor.ts:38 | The rounded stretch of a value inside the range stays within 0..255. |
| `PixelSpec.StretchRounds` | src/scanner/image-processor.ts:38 | `Stretch` is the nearest integer to `(v - min) * 255 / range`, halves rounded up as `Math.round` does. |
| `PixelSpec.Stretch` | src/scanner/image-processor.ts:37-42 | Defines the stretched value `Math.round((v - min) * 255 / range)` in integers. Its contract: the minimum stretches to 0 and the maximum to 255. |
| `PixelSpec.StretchPixel` | src/scanner/image-processor.ts:37-42 | Defines one output pixel of the stretch: its red value stretched into R, G and B, alpha copied. Its contract: the result is grey and keeps alpha. |
| `PixelSpec.StretchFull` | src/scanner/image-processor.ts:38 | Over the full range 0..255, stretching changes nothing. |
| `PixelSpec.Normalized` | src/scanner/image-processor.ts:20-46 | Defines the pixels `normalizeContrast` returns: the input when the red range is 0, otherwise `StretchPixel` of every pixel between `RedMin` and `RedMax`. Its contract: as many pixels as the input. |
| `PixelSpec.NormalizedUniform` | src/scanner/image-processor.ts:31-34 | An image whose red channel is uniform comes back unchanged. |
| `PixelSpec.NormalizedStretches` | src/scanner/image-processor.ts:36-45 | Otherwise the result is grey and keeps alpha. Each red value is stretched; the darkest red becomes 0 and the brightest 255. |
| `PixelSpec.NormalizedFullRange` | src/scanner/image-processor.ts:31-45 | A grey image already spanning 0..255 is left as it is. |
| `PixelSpec.NormalizedIdempotent` | src/scanner/image-processor.ts:20-46 | Normalising twice gives the same pixels as normalising once. |
| `PixelSpec.NormalizedKeepsGray` | src/scanner/barcode-scanner.ts:29-30 | Normalising the grayscale output keeps it grey. |
| `ImageProcessor.InvertImage` | src/scanner/image-processor.ts:48-60 | Returns a fresh image of the same size whose pixels are the input's inverted. |
| `PixelSpec.InvertPixel` | src/scanner/image-processor.ts:52-57 | Defines one output pixel of `invertImage`. Its contract: each of R, G and B adds up to 255 with the input channel, and alpha is copied. |
| `PixelSpec.Inverted` | src/scanner/image-processor.ts:48-60 | Defines the pixels `invertImage` returns: `InvertPixel` of every input pixel, in order. Its contract: as many pixels as the input. |
| `PixelSpec.InvertedComplements` | src/scanner/image-processor.ts:52-57 | Inversion complements R, G and B to 255 and keeps alpha. |
| `PixelSpec.InvertedInvolution` | src/scanner/image-processor.ts:48-60 | Inverting twice restores the original pixels. |
| `ImageProcessor.CloneImageData` | src/scanner/image-processor.ts:62-65 | Returns a fresh image with the same dimensions and the same bytes. |
| `ImageProcessor.CopyPixel` | src/scanner/image-processor.ts:67-79 | Destination pixel `dstIndex` becomes source pixel `srcIndex`, all four channels. Every other destination byte is unchanged. |
| `ImageProcessor.RotateImage` | src/scanner/image-processor.ts:81-115 | Returns a fresh image that is `Rotate` of the input: width and height swap for 90 and 270 degrees. At 0 degrees it is a byte-for-byte copy. |
| `ImageProcessor.MovePixels` | src/scanner/image-processor.ts:88-112 | After the nested loops, every destination pixel holds the source pixel that rotates onto it. |
| `ImageProcessor.PlacedOne` | src/scanner/image-processor.ts:104-111 | Copying source pixel `(x, y)` to its target extends the set of finished destination pixels by exactly that one. |
| `PixelSpec.TargetPixel` | src/scanner/image-processor.ts:92-93 | The destination index of `dstIdx` (180 degrees: lines 92-93; 90 and 270: lines 106-109) is inside the image. |
| `PixelSpec.SourcePixel` | src/scanner/image-processor.ts:100-109 | Each destination index has a source pixel inside the image. |
| `PixelSpec.TargetSourceInverse` | src/scanner/image-processor.ts:104-111 | No two source pixels land on the same destination index. |
| `PixelSpec.SourceTargetInverse` | src/scanner/image-processor.ts:104-111 | Every destination index receives some source pixel, so the rotation is a permutation. |
| `PixelSpec.TargetOfSource` | src/scanner/image-processor.ts:104-111 | A destination index whose source is `(x, y)` is the target of `(x, y)`. |
| `PixelSpec.Rotated` | src/scanner/image-processor.ts:86-112 | Defines the pixels `rotateImage` returns for a `w` by `h` image: destination index `q` holds source pixel `SourcePixel(q)`, all four channels together. Its contract: as many pixels as the input. |
| `PixelSpec.Rotate` | src/scanner/image-processor.ts:97 | A rotated image is valid, has the same pixel count, and has its width and height swapped exactly for 90 and 270 degrees (lines 100-101, 114). |
| `PixelSpec.RotatedMovesPixel` | src/scanner/image-processor.ts:104-111 | Source pixel `(x, y)` appears unchanged at its target index. |
| `PixelSpec.RotateZero` | src/scanner/image-processor.ts:82-84 | Rotating by 0 degrees gives back the same image. |
| `PixelSpec.RotateTwice` | src/scanner/image-processor.ts:81-115 | Proof helper for the rotation round trips `Rotate180Twice`, `Rotate90Then270` and `Rotate270Then90`: two rotations whose index maps compose to the identity restore the image. |
| `PixelSpec.Rotate180Twice` | src/scanner/image-processor.ts:88-98 | Rotating by 180 degrees twice restores the image. |
| `PixelSpec.Rotate90Then270` | src/scanner/image-processor.ts:100-114 | Rotating by 90 then 270 degrees restores the image. |
| `PixelSpec.Rotate270Then90` | src/scanner/image-processor.ts:100-114 | Rotating by 270 then 90 degrees restores the image. |
| `PixelSpec.PixelsInjective` | src/scanner/image-processor.ts:73-78 | Proof helper for `InvertedTwiceSameBytes`: two buffers holding the same pixels, all four channels of each, are the same bytes, so pixel-level equality is byte-level equality. |
| `PixelSpec.InvertedTwiceSameBytes` | src/scanner/image-processor.ts:48-60 | A buffer inverted and then inverted again is byte for byte the original buffer. |
| `BarcodeScanner.AttemptsOfRotation` | src/scanner/barcode-scanner.ts:5 | Relates the two constants of the search: `Rotations` is `ROTATIONS` (0, 90, 180, 270), and `Attempts` lists the eight attempts of lines 32-45 in order. Rotation `i` gives attempts `2i` (plain) and `2i + 1` (inverted). |
| `BarcodeScanner.Decoder.ScanImageData` | src/scanner/barcode-scanner.ts:12 | The decoder answers the image it is given and records that one image. |
| `BarcodeScanner.Decoder.constructor` | src/scanner/barcode-scanner.ts:1 | A fresh decoder has answered no image yet. |
| `BarcodeScanner.Decide` | src/scanner/barcode-scanner.ts:14-25 | No symbols gives not found; a decoder throw is passed through; otherwise the first symbol's text and type are reported with the attempt's orientation and inversion flag. |
| `BarcodeScanner.TryScan` | src/scanner/barcode-scanner.ts:7-26 | One decoder call on the given image; the outcome is `Decide` of the decoder's answer for this attempt. |
| `BarcodeScanner.Preprocessed` | src/scanner/barcode-scanner.ts:29-30 | The preprocessed image has the raw image's dimensions. |
| `BarcodeScanner.AttemptImage` | src/scanner/barcode-scanner.ts:33-40 | Every attempted image is a valid image. |
| `BarcodeScanner.AttemptImages` | src/scanner/barcode-scanner.ts:32-45 | There is one image per attempt, eight in all. |
| `BarcodeScanner.Replies` | src/scanner/barcode-scanner.ts:35-41 | There is one decoder answer per attempted image. |
| `BarcodeScanner.ScanBarcode` | src/scanner/barcode-scanner.ts:28-48 | The outcome is the first-success search over the decoder's answers for the eight attempts. The decoder was asked about exactly the attempts that search makes, in order. |
| `BarcodeScanner.TryRotations` | src/scanner/barcode-scanner.ts:32-47 | The loop over `ROTATIONS` tries plain, then inverted, and returns the first non-null outcome. The decoder log grows by exactly the images tried. |
| `BarcodeScanner.SearchFrom` | src/scanner/barcode-scanner.ts:32-47 | Defines the search from attempt `k` on: attempts are made in order until one decides something other than `null`. Its contract: a search that starts before the end makes at least one call and never more than the attempts left, and it ends in `null` only after the last attempt. |
| `BarcodeScanner.SearchFromExplained` | src/scanner/barcode-scanner.ts:32-47 | From attempt `k`, the search makes between one and `8 - k` calls. Every skipped attempt found nothing. Not found means all remaining calls were made and the last found nothing. Any other outcome is the last call's outcome. |
| `BarcodeScanner.SearchExplained` | src/scanner/barcode-scanner.ts:28-48 | The whole search makes 1 to 8 calls. It is not found exactly when all eight attempts found nothing. Otherwise it stops at the first attempt that found something or threw. |
| `BarcodeScanner.SearchStopsAtFirst` | src/scanner/barcode-scanner.ts:36-44 | After attempts that found nothing, the first attempt that did not decides the outcome, and no later attempt is made. |
| `BarcodeScanner.FirstSymbolWins` | src/scanner/barcode-scanner.ts:18-23 | The first successful attempt reports its first symbol, orientation and inversion. |
| `BarcodeScanner.FaultPropagates` | src/scanner/barcode-scanner.ts:12 | A decoder throw ends the search with that throw after exactly that many calls. |
| `BarcodeScanner.AllEmptyIsNotFound` | src/scanner/barcode-scanner.ts:47 | When every attempt finds nothing, the result is null after all eight calls. |
| `BarcodeScanner.AttemptImagesOfRotation` | src/scanner/barcode-scanner.ts:33-41 | Attempt `2i` is the normalised image rotated by `ROTATIONS[i]`, and attempt `2i + 1` is that rotation inverted. |
| `BarcodeScanner.AttemptImagesAreGray` | src/scanner/barcode-scanner.ts:29-41 | Every image handed to the decoder is grey. |
| `BarcodeScanner.SearchStep` | src/scanner/barcode-scanner.ts:35-44 | One attempt either decides the search or passes it on to the next attempt. |
| `BarcodeScanner.TryRotation` | src/scanner/barcode-scanner.ts:33-44 | One pass of the loop: either both the rotated and the inverted image found nothing and the search continues two attempts later, or the pass decides the search. The decoder log grows by exactly the images this pass tried. |
| `BarcodeScanner.LoggedOne` | src/scanner/barcode-scanner.ts:35 | Proof helper for `TryRotation`: recording one attempted image extends the log by a one-image slice of the attempts. |
| `BarcodeScanner.LoggedTwo` | src/scanner/barcode-scanner.ts:35-41 | Proof helper for `TryRotation`: recording the plain and then the inverted image extends the log by a two-image slice of the attempts. |
| `BarcodeScanner.LogJoin` | src/scanner/barcode-scanner.ts:32-45 | Proof helper for `TryRotations`: a logged prefix of the attempts followed by the next slice is the longer prefix. |
| `App.Begin` | src/main.ts:26-31 | Defines the page after the first half of a request. Its contract: the counter goes up by one, the banner is hidden, the skeleton is shown, and (without reduced motion) the animation starts. |
| `App.Settle` | src/main.ts:36-54 | Defines the page after a scan settles. For the current request, a result goes to the card; null clears the results and shows `NotFoundMessage` (line 42); a throw clears the results and shows its `ErrorMessage`. The newest request's stop runs, and it clears the scanning classes unless that request started under reduced motion (`stopClears`); the counter is unchanged. Any other completion changes nothing. |
| `App.ErrorMessage` | src/main.ts:48-50 | Defines the banner text for a throw: an `Error`'s own message, and otherwise `FallbackMessage`, the fixed text of line 49. |
| `App.Step` | src/main.ts:25-56 | Defines one event as `Begin` or `Settle`. Its contract: a request raises the counter by one, and a completion leaves it alone; a completion that does not carry the current counter changes nothing. |
| `App.RunAppend` | src/main.ts:25-56 | Running two event sequences in turn equals running their concatenation. |
| `App.Run` | src/main.ts:11 | Defines the page after a sequence of events, oldest first. Its contract: the counter is the starting counter plus the number of requests among the events. |
| `App.SupersededCompletionIgnored` | src/main.ts:36-54 | Once a request is superseded, its completion never changes the page, whatever else happens. |
| `App.StaleCompletionsChangeNothing` | src/main.ts:36 | Completions of requests that are not current leave the page as it is. |
| `App.LatestRequestWins` | src/main.ts:25-56 | With two requests, the page ends up as the second one's outcome leaves it, in either completion order. |
| `App.ReducedMotionLeavesAnimation` | src/main.ts:31 | A full-motion request superseded by a reduced-motion one leaves the scanning classes on, whatever the two outcomes; only the newest request's stop runs (lines 52-54), and under reduced motion it does nothing (src/ui/animations.ts:7-8). |
| `App.RunTwo` | src/main.ts:25-56 | Proof helper for `LatestRequestWins` and `ReducedMotionLeavesAnimation`: two events in sequence are two steps. |
| `App.Controller.constructor` | src/main.ts:11 | The counter starts at 0, with no results, no banner and no animation. |
| `App.Controller.ShowError` | src/main.ts:13-17 | Shows the banner with the given text; nothing else changes. |
| `App.Controller.HideError` | src/main.ts:19-23 | Hides the banner and clears its text; nothing else changes. |
| `App.Controller.Start` | src/main.ts:26-31 | Follows `Begin`, and returns the pre-incremented counter it captured. |
| `App.Controller.Complete` | src/main.ts:34-55 | Follows `Settle` for the captured counter. A stale request leaves the controller untouched. |
| `App.DropTwice` | src/main.ts:25-56 | Two drops settling in either order: the counter is 2, the animation is off, and the page shows the second drop's outcome. |

## Left out

- `imageDataFromSource` and `drawToCanvas` (src/scanner/image-processor.ts:117-147) are left out. They decode a file through the browser's canvas, and the model starts from an `ImageData` already in memory.
- The zbar decoder (`scanImageData`) is not part of this model. `Decoder` stands in for it: a fixed function from image to answer (symbols, or a thrown value), with a log of calls. Its asynchrony is not modelled.
- `BarcodeScanner.Decide` does not model `symbol.decode()` or the `scannedAt: new Date()` timestamp. A symbol carries its decoded text, and the clock is left out.
- `PixelSpec.Luma` rounds the exact value `0.299 R + 0.587 G + 0.114 B`, halves up. `Math.round` on the floating-point sum can differ when that sum is exactly a half, because the binary weights are not exact.
- `ImageProcessor.ToGrayscale` inherits that rounding caveat from `PixelSpec.Luma`.
- `Uint8ClampedArray` clamping is not modelled. Every value written is proved to lie in 0..255, so clamping never applies.
- Images with zero width or height are excluded by `Valid`, because the `ImageData` constructor rejects them.
- `ImageProcessor.RotateImage` uses one nested loop (`MovePixels`) with an index function for all of 90, 180 and 270 degrees. The source has a separate loop for 180 degrees; the copied pixels and the result are the same. The 0 degree case is a clone, as in the source.
- `ImageProcessor.NormalizeContrast` puts its two loops in helper methods (`RedRange` and `StretchChannels`). `BarcodeScanner.ScanBarcode` puts its rotation loop in `TryRotations`, and the body of that loop in `TryRotation`. The order of effects is unchanged.
- The `await` points of `handleImageReady` are modelled as a sequence of `Request` and `Completion` events in any order. The `Controller` methods are its two halves. JavaScript's single-threaded interleaving is the only concurrency.
- The null checks on `errorEl`, the results section and the preview container are left out: the page is assumed to have them. `initDropZone` and the drop zone's own error path (`onError: showError`) are not part of this model.
- `App.Initial` and `App.Controller.constructor` take the page's first state as nothing shown, no banner and no animation. Only the counter's 0 comes from src/main.ts:11; the rest depends on the page's HTML, which is not part of this model.
- The DOM content of the result card and the skeleton is left out. The results area is one of `Hidden`, `Skeleton` or `Card(result)`.
