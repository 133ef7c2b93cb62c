# Image Editor Pro — a verified model of its pixel kernels and session state

Image Editor Pro is a browser photo editor. The user loads a JPG, PNG or BMP file.
The image is bounded to 800 pixels on its longer side. The user then applies one of
four effects, each in its own tab: pencil sketch, resize, cartoon, and background
removal by colour key. The result can be downloaded as a PNG. All of it lives in one
class, `ImageEditorPro` in `app.js`.

This project models the computational core of that class in Dafny:

- `byte_math.dfy` (`ByteMath`): JavaScript numbers taken as exact rationals,
  `Math.round`, and the store of a number into a canvas's clamped byte array. The
  store clamps to 0..255 and rounds to the nearest integer, halves to even. It also
  holds integer forms of both operations (`RoundQuotient`, `StoreQuotient`), proved
  equal to the rational ones.
- `raster.dfy` (`Raster`): a canvas's pixel buffer (width, height, RGBA bytes) and
  `putImageData` at the origin. That call never resizes the canvas, so it is a
  clipped paste.
- `dimensions.dfy` (`Dimensions`): `getResizedDimensions`, the 800-pixel bound
  applied at load time. The script's formula over rationals is `ScriptDimensions`;
  `ResizedDimensions` is its integer form, proved equal to it and used by the editor.
- `colour.dfy` (`Colour`): `hexToRgb`, which reads the key colour.
- `file_format.dfy` (`FileFormat`): the file-extension test of `loadImage` and the
  compressed-size estimate of `updateFileSizeComparison`.
- `grayscale.dfy`, `sketch.dfy`, `cartoon.dfy`, `background.dfy`: the four
  per-pixel loops. Each is a method that rewrites a byte array in place, proved
  equal to a specification function on sequences. The properties are proved as
  lemmas about that function.
- `editor.dfy` (`Editor`): the session state as a class `ImageEditor`. Its fields
  are the loaded image, the working image (`currentImageData`), the current tab,
  the preview canvas, and a before/after canvas pair per module. Its methods are
  load, tab switch, the four applies, reset and download. Each states the whole new
  state, and `Valid()` is the invariant they keep.

Browser resampling (`drawImage` with a size) and the canvas blur filter are
function-valued parameters (`Resampler`, `Blur`). The model knows only the size of
their output. Decoding an image file is a parameter too: the already decoded image,
or `None` when decoding fails.

## Behaviour as written

Some of what `app.js` does is easy to misread. The model follows the code:

- Switching tabs pastes the working image onto both canvases of the module at the
  origin (`putImageData`, app.js:326). The canvases are not resized. After a resize
  to 400 x 200 of an image loaded at 800 x 400, the cartoon tab's canvases stay
  800 x 400. Only their top-left 400 x 200 show the resized image
  (`ResizeThenSwitchScenario`).
- `colorLevels = 2` gives three values, 0, 128 and 255, not two. Level 1 is 127.5,
  and the clamped byte store rounds it to the even 128 (`TwoLevelsGiveThreeValues`).
- With `threshold = 0` and `feather = 0`, a pixel exactly of the key colour keeps
  its alpha, since `0 < 0` is false. No pixel changes at all (`NoThresholdKeepsImage`).
- A neighbour byte of 0 (black) counts as missing in the edge test (`data[j] ||
  current`). It adds nothing to the edge (`EdgeSumZero`).
- Resize has no loaded-image guard. With no image it scales whatever the resize
  before canvas holds and makes that the working image (`ApplyResize`).
- A zero-area canvas makes `getImageData` and `drawImage` throw. Such a canvas
  arises, for example, from loading a 10000 x 1 image (`ThinImageCollapses`). The
  model stops the operation at the throwing call and keeps every change made before
  it.
- Reset copies the before canvas into the after canvas only. It does not touch the
  working image (`ResetModule`).

## Model

| member | source | states |
|---|---|---|
| `ByteMath.Round` | app.js:716 | `Math.round` lies within half of its argument, a half going up |
| `ByteMath.ClampByte` | app.js:421-423 | a store into the clamped byte array gives 0 below the range, 255 above it, otherwise the nearest integer, ties to even |
| `ByteMath.RoundQuotient` | app.js:716 | `Math.round(n / d)` on integers for a positive divisor: within half of n / d, a half going up |
| `ByteMath.StoreQuotient` | app.js:421-423 | the byte a clamped array stores for n / d: 0 at or below 0, 255 at or above 255, otherwise within half of n / d with ties going to the even byte |
| `ByteMath.RoundQuotientIsRound` | app.js:531 | the integer rounded quotient equals `Math.round` of the exact quotient |
| `ByteMath.StoreQuotientIsClampByte` | app.js:421-423 | the integer byte store equals the clamped store of the exact quotient |
| `Raster.Blank` | app.js:208-211 | setting a canvas's size leaves that size with every byte 0 |
| `Raster.Paste` | app.js:326 | `putImageData(src, 0, 0)` keeps the canvas size; inside the overlap src's pixels replace the canvas's, outside it nothing changes |
| `Raster.PasteSameSize` | app.js:755-757 | pasting onto a canvas of the same size replaces its contents exactly |
| `Raster.PasteTwice` | app.js:314-330 | syncing the same image into a module twice is the same as once |
| `Dimensions.ScriptDimensions` | app.js:230-241 | `getResizedDimensions` over exact rationals: a size that fits is returned as is; otherwise both sides are multiplied by min(bound / width, bound / height) and floored, a side of 0 giving an infinite ratio |
| `Dimensions.ResizedDimensions` | app.js:230-241 | the same bound on integers: a size that fits is returned as is; otherwise the longer side (width on a tie) becomes the bound and the other side floor(side * bound / longer) |
| `Dimensions.ResizedDimensionsIsScriptFormula` | app.js:230-241 | the integer form of the bound equals the script's formula over exact rationals, `Math.floor` of each side times `Math.min(bound / width, bound / height)` |
| `Dimensions.ClosedFormWide` | app.js:234-237 | under the script's formula a landscape image over the bound becomes bound x floor(height * bound / width) |
| `Dimensions.ClosedFormTall` | app.js:234-237 | under the script's formula a portrait image over the bound becomes floor(width * bound / height) x bound |
| `Dimensions.ResizedDimensionsBounded` | app.js:230-241 | an image that fits is unchanged; otherwise neither side grows, both end within the bound and the longer side lands exactly on it, all in exact arithmetic |
| `Dimensions.ResizedDimensionsIdempotent` | app.js:230-241 | bounding a bounded size changes nothing |
| `Dimensions.ThinImageCollapses` | app.js:230-241 | under the script's formula 10000 x 1 becomes 800 x 0 |
| `Dimensions.LandscapeScaledToBound` | app.js:197-203 | under the script's formula a 1000 x 500 image is loaded at 800 x 400 |
| `Colour.HexByte` | app.js:742-744 | `parseInt` of a two-digit hex group: 16 times the first digit's value plus the second's |
| `Colour.HexToRgb` | app.js:739-746 | one optional '#' is stripped and exactly six hex digits are read as three bytes; any other string gives white (255, 255, 255) |
| `Colour.HexToRgbMatchesPattern` | app.js:739-746 | exactly six hex digits with an optional '#' give their three byte values; any other string gives white |
| `Colour.HexRoundTrip` | app.js:739-746 | every colour written as `#rrggbb` or `rrggbb` reads back as itself |
| `Colour.HexToRgbIgnoresCase` | app.js:740 | upper-casing the string never changes the colour |
| `FileFormat.IsSupportedFileName` | app.js:164-171 | the text after the last '.' (the whole name when there is none), lower-cased, is jpg, jpeg, png or bmp |
| `FileFormat.LastSegment` | app.js:166 | the extension has no '.', ends the name, and follows a '.' unless it is the whole name |
| `FileFormat.SupportedIffExtension` | app.js:164-171 | a file is accepted exactly when its name ends in a '.'-separated jpg, jpeg, png or bmp in any case |
| `FileFormat.EstimatedSize` | app.js:531 | the file size times quality / 100, rounded half up, as an integer rounded quotient |
| `FileFormat.EstimatedSizeIsScriptFormula` | app.js:531 | the estimate is `Math.round(size * (quality / 100))` |
| `FileFormat.EstimatedSizeBounds` | app.js:526-535 | for quality 0..100 the estimate lies in 0..size, is 0 at quality 0 and size at 100, and never falls as quality grows |
| `Grayscale.Luma` | app.js:716 | the grey level (299 R + 587 G + 114 B + 500) div 1000, the weighted mean rounded half up |
| `Grayscale.LumaBounds` | app.js:716 | the grey level lies between the darkest and brightest channel; a grey pixel keeps its level |
| `Grayscale.LumaIsRoundedMean` | app.js:716 | the integer grey level is `Math.round(0.299 R + 0.587 G + 0.114 B)` |
| `Grayscale.GrayscaleSpec` | app.js:711-723 | the buffer the loop leaves: R, G and B of every pixel become its grey level, alpha is kept |
| `Grayscale.GrayscalePixel` | app.js:715-720 | each pixel's R, G and B become its grey level; alpha is kept |
| `Grayscale.GrayscaleIsGrey` | app.js:711-723 | every converted pixel has R = G = B |
| `Grayscale.GreyIsFixed` | app.js:711-723 | converting a grey buffer changes nothing |
| `Grayscale.GrayscaleIdempotent` | app.js:711-723 | converting twice is converting once |
| `Grayscale.ApplyGrayscale` | app.js:711-723 | the in-place loop leaves exactly the converted buffer |
| `Sketch.NeighbourOr` | app.js:732-733 | a neighbour byte that is 0 or lies past the end of the buffer reads as the current value |
| `Sketch.EdgeSum` | app.js:725-737 | the unscaled edge is at most 510 |
| `Sketch.EdgeSumZero` | app.js:730-736 | the edge is 0 in column 0, row 0, the last column, and where both neighbours are missing, black or equal to the pixel |
| `Sketch.EdgeReadsAhead` | app.js:732-734 | the edge depends only on the current pixel and later bytes |
| `Sketch.SketchValue` | app.js:418-423 | the sketch value of an edge sum, (2550 - sum * detail * intensity) / 10 stored into a byte |
| `Sketch.SketchValueEnds` | app.js:419 | no edge gives white; a darkening of 255 or more gives black |
| `Sketch.SketchValueIsScriptFormula` | app.js:418-423 | the integer sketch value is the stored `Math.max(0, 255 - edge * (detail / 5) * (intensity / 2))` |
| `Sketch.SketchSpec` | app.js:416-424 | R, G and B of every pixel get the sketch value of its edge, computed on the unmodified grey buffer; alpha is kept |
| `Sketch.SketchPixel` | app.js:416-424 | each pixel's R, G and B get one sketch value; alpha is kept |
| `Sketch.SketchEffect` | app.js:408-424 | the sketch canvas before smoothing: the grey conversion, then the sketch pass over the grey buffer |
| `Sketch.SketchEffectShape` | app.js:408-424 | after grey conversion and the sketch pass, every pixel is grey and keeps its alpha |
| `Sketch.FlatImageSketchesWhite` | app.js:408-424 | a single-coloured image sketches to pure white, whatever intensity and detail, keeping alpha |
| `Sketch.SketchPass` | app.js:416-424 | the in-place loop, reading edges from the buffer it rewrites, equals computing every edge from the unmodified grey buffer |
| `Cartoon.Level` | app.js:600 | level k of `levels`, k * (255 / levels) stored into a byte |
| `Cartoon.Quantize` | app.js:600-602 | a channel becomes the level of its rounded index round(c * levels / 255); with 0 levels the NaN product is stored as 0 |
| `Cartoon.IndexIsScriptFormula` | app.js:600 | the integer level index is `Math.round(c / 255 * levels)` |
| `Cartoon.LevelIsScriptFormula` | app.js:600 | the stored level is `k * (255 / levels)` clamped into a byte |
| `Cartoon.QuantizeIsLevel` | app.js:600-602 | each channel lands on a level k in 0..levels; black stays black and white stays white |
| `Cartoon.QuantizeIdempotent` | app.js:600-602 | for 1 to 255 levels, quantising a quantised channel changes nothing |
| `Cartoon.TwoLevelsGiveThreeValues` | app.js:600 | two levels give the values 0, 128 and 255 |
| `Cartoon.MapColourChannels` | app.js:599-603 | a channel map applied to R, G and B of every pixel, alpha kept |
| `Cartoon.QuantizeSpec` | app.js:599-603 | the buffer the quantisation loop leaves: every colour byte quantised to its level, alpha kept |
| `Cartoon.QuantizeSpecAt` | app.js:599-603 | colour bytes are quantised, alpha bytes kept |
| `Cartoon.QuantizeSpecIdempotent` | app.js:599-603 | quantising a quantised buffer changes nothing |
| `Cartoon.MapColourChannelsInPlace` | app.js:599-603 | the in-place loop applies the channel map to R, G and B of every pixel and keeps alpha |
| `Cartoon.QuantizeColours` | app.js:599-603 | the in-place loop leaves exactly the quantised buffer |
| `Background.ColourDistance` | app.js:694 | the distance lies in 0..765 and is 0 exactly at the key colour |
| `Background.FeatherAlpha` | app.js:698-700 | inside the feather band alpha is 255 * (diff - 3t) / (3f) rounded, and it is 0 where the band starts |
| `Background.FeatherAlphaIsScriptFormula` | app.js:700 | the ramp value is `Math.round((diff - 3t) / (3f) * 255)`, a byte stored unchanged |
| `Background.KeyedAlpha` | app.js:696-701 | alpha is 0 below 3t, the feather ramp below 3(t + f), and otherwise the pixel's own alpha |
| `Background.KeyedAlphaCases` | app.js:696-701 | below 3t alpha is 0, at or past 3(t+f) it is kept, the ramp starts at 0, and with f = 0 the ramp is never reached |
| `Background.KeyedAlphaMonotone` | app.js:696-701 | for an opaque pixel alpha never falls as the distance grows |
| `Background.RemoveBackgroundSpec` | app.js:688-702 | the buffer the loop leaves: every alpha keyed on its pixel's distance from the key colour, colour bytes kept |
| `Background.RemoveBackgroundPixel` | app.js:688-702 | R, G and B are kept and alpha is keyed on the pixel's own colour |
| `Background.ColoursKept` | app.js:688-702 | no colour byte ever changes |
| `Background.KeyColourRemoved` | app.js:694-697 | with a positive threshold a pixel of the key colour becomes transparent |
| `Background.NoThresholdKeepsImage` | app.js:696-701 | with threshold and threshold + feather at most 0 the buffer is unchanged |
| `Background.RemoveBackgroundIdempotent` | app.js:688-702 | keying twice is keying once |
| `Background.PickerKey` | app.js:670 | an empty picker falls back to '#ffffff', which gives the same colour as `hexToRgb` of the empty string |
| `Background.RemoveBackground` | app.js:688-702 | the in-place loop leaves exactly the keyed buffer |
| `Editor.ModuleOf` | app.js:315-322 | tabs 1 to 4 select the sketch, resize, cartoon and background modules; any other tab selects none |
| `Editor.ValidSide` | app.js:500 | a typed side passes the resize guard only when it is a number above 0; NaN, 0 and negatives are refused |
| `Editor.SketchImage` | app.js:405-433 | the sketch result has the canvas's size; unsmoothed, it is grey and keeps alpha |
| `Editor.CartoonImage` | app.js:593-610 | the cartoon result has the canvas's size |
| `Editor.KeyedImage` | app.js:680-704 | the keyed result has the canvas's size and its colours |
| `Editor.GetImageData` | app.js:412 | reading a canvas gives a fresh array holding its bytes |
| `Editor.LoadedImage` | app.js:197-211 | the decoded image resampled to its bounded size, the image every canvas receives at load |
| `Editor.ImageEditor.constructor` | app.js:2-7 | a new editor has no image, no working image, tab 0, and every canvas blank |
| `Editor.ImageEditor.LoadImage` | app.js:164-195 | an unsupported name changes nothing; a decode failure records only the file size; a decoded image is bounded, fills preview and every before and after canvas, and becomes the working image when it has pixels |
| `Editor.ImageEditor.ReadFile` | app.js:173-195 | the file size is recorded; a decode failure changes nothing else; a decoded image is bounded, fills preview and every before and after canvas, and becomes the working image when it has pixels |
| `Editor.ImageEditor.ImageLoaded` | app.js:179-181 | the decoded image is kept as the original and set up on every canvas at its bounded size |
| `Editor.ImageEditor.SetupGlobalImage` | app.js:197-228 | every canvas gets the bounded size and the scaled image; the working image is read back from the preview unless it has no pixels |
| `Editor.ImageEditor.SwitchModule` | app.js:287-312 | the tab is recorded; with a working image and a module tab, both of that module's canvases receive it pasted at the origin; nothing else changes |
| `Editor.ImageEditor.SyncImageToModule` | app.js:314-330 | the working image is pasted onto both canvases of tabs 1 to 4 only |
| `Editor.ImageEditor.UpdateCurrentImage` | app.js:748-759 | the working image and the preview both become the given canvas contents |
| `Editor.ImageEditor.ApplySketch` | app.js:387-438 | no change without an image or on an empty canvas; otherwise after becomes the sketch of the before canvas drawn onto it, and so do the working image and the preview; before is never touched |
| `Editor.ImageEditor.ApplyResize` | app.js:490-524 | a NaN, zero or negative side changes nothing; otherwise after becomes before scaled to the requested size, as do the working image and preview, and the size estimate is reported |
| `Editor.ImageEditor.ApplyCartoon` | app.js:575-615 | no change without an image or on an empty canvas; otherwise after becomes the quantised and blurred before canvas, as do the working image and preview |
| `Editor.ImageEditor.ApplyBackgroundRemoval` | app.js:662-708 | no change without an image or on an empty canvas; otherwise after becomes the before canvas keyed against the picker colour, as do the working image and preview |
| `Editor.ImageEditor.ResetModule` | app.js:761-784 | the module's after canvas becomes its before canvas, size and contents; nothing else changes |
| `Editor.ImageEditor.DownloadImage` | app.js:812-824 | with no working image nothing is exported; otherwise exactly the working image is |
| `Editor.ResizeThenSwitchScenario` | app.js:287-330 | after load at 800 x 400 and resize to 400 x 200, the cartoon before canvas stays 800 x 400 with only its top-left 400 x 200 replaced |
| `Editor.SketchThenSwitchScenario` | app.js:287-330 | after a sketch, opening the resize tab makes its before canvas the sketch result |

## Left out

- DOM wiring is not modelled: event listeners, tab and class toggling, slider labels, drag and drop, the loading overlay, alerts, `initializeControls` and `enableNavigation`. The slider defaults restored by `resetModule` (app.js:786-804) and the `enableColorPicker` stub are left out too. All of it is display glue.
- `FileReader`, `Image` decoding and the `setTimeout` deferrals are asynchronous browser I/O. Load and every apply are synchronous steps taking an already decoded image.
- Form values arrive already parsed. Only the resize width and height model NaN, as `None`. NaN in the other sliders and the `|| default` fallbacks are not modelled.
- Editor.ImageEditor.ApplyResize: only the size of the scaled image is known, because browser interpolation is not part of the model.
- Editor.SketchImage: after a positive smoothing only the size is known, because the canvas blur filter is not part of the model.
- Editor.CartoonImage: only the size of the result is known, because the blur it ends with is not part of the model. The quantisation before it is proved in `Cartoon`.
- Drawing the before canvas onto the after canvas (app.js:406, 593, 680) is modelled as a plain paste. This is exact for opaque pixels. Source-over blending with the old after contents, for translucent pixels, is not modelled.
- Premultiplied-alpha precision loss in `getImageData`/`putImageData` is not modelled. Round trips through a canvas are taken as exact.
- The `edgeThickness` slider is read but never used by `applyCartoonEffect` (app.js:582), so `ApplyCartoon` has no such parameter.
- PNG encoding, `toBlob`, object URLs and the timestamped file name are foreign calls. `DownloadImage` returns the raster that would be encoded.
- `formatFileSize` uses `Math.log` and `toFixed`, and the aspect-ratio linking of the resize inputs (app.js:458-473) is floating-point display logic. Both are left out.
- `imageHistory` is never used. `updateImageInfo`, `updateResizeInputs` and `setupInitialResizeValues` only fill text fields. None of them is modelled.
- The initial size of the page's canvases is set by the HTML page, which is not part of this model. It is a constructor parameter.
- `toLowerCase` and the case-insensitive hex pattern are modelled on ASCII letters only. No other character maps onto a hex digit or an accepted extension.
- Dimensions.ScriptDimensions: computes over exact rationals, not IEEE doubles, so it can differ by one from the script where the double product falls just below an integer. For 1078 x 500 the script's `1078 * (800 / 1078)` is 799.9999999999999 and the image loads at 799 x 371, while the model gives 800 x 371.
- Dimensions.ResizedDimensions: equals `ScriptDimensions`, so it carries the same exact-arithmetic difference; its bounds and idempotence hold for exact arithmetic, not for the doubles of the script.
- Grayscale.Luma: exact weighted mean, not the double sum. For (0, 36, 12) the exact mean is 22.5 and rounds to 23, while the double sum is 22.499999999999996 and the script stores 22.
- Sketch.SketchValue: exact product, not the double one. For an edge sum of 45 with detail 7 and intensity 7 the exact value 34.5 is stored as the even 34, while the script computes 34.50000000000003 and stores 35.
- Cartoon.Quantize: computes over exact rationals like `Luma`; where the script's double result lands within rounding error of a half or an integer, its stored value can differ by one.
- Cartoon.Level: computes over exact rationals like `Luma`; where the script's double result lands within rounding error of a half or an integer, its stored value can differ by one.
- Background.FeatherAlpha: computes over exact rationals like `Luma`; where the script's double result lands within rounding error of a half or an integer, its stored value can differ by one.
- FileFormat.EstimatedSize: computes over exact rationals like `Luma`; where the script's double result lands within rounding error of a half or an integer, its stored value can differ by one.
