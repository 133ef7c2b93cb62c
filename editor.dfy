/** The session state of the editor (`ImageEditorPro`): the loaded image, the
    working image every module hands its result to (`currentImageData`), the
    preview canvas, and a before/after canvas pair for each of the four effect
    modules. Canvases are held as values that the methods replace; the pixel
    loops run in place on a fresh copy of a canvas's bytes, as `getImageData`
    hands the script one. */
module Editor {
  import opened ByteMath
  import opened Raster
  import opened Dimensions
  import opened Colour
  import opened FileFormat
  import opened Grayscale
  import opened Sketch
  import opened Cartoon
  import opened Background

  datatype Option<T> = None | Some(value: T)

  /** The four effect modules, tabs 1 to 4. */
  datatype ModuleKind = SketchModule | ResizeModule | CartoonModule | BackgroundModule

  /** The module a tab number selects; tab 0 is the preview and selects none. */
  function ModuleOf(id: int): (m: Option<ModuleKind>)
    ensures m.Some? <==> 1 <= id <= 4
    ensures m == Some(SketchModule) <==> id == 1
    ensures m == Some(ResizeModule) <==> id == 2
    ensures m == Some(CartoonModule) <==> id == 3
    ensures m == Some(BackgroundModule) <==> id == 4
  {
    if id == 1 then Some(SketchModule)
    else if id == 2 then Some(ResizeModule)
    else if id == 3 then Some(CartoonModule)
    else if id == 4 then Some(BackgroundModule)
    else None
  }

  /** There are no modules besides the four. */
  lemma EveryModuleListed(m: ModuleKind)
    ensures m in {SketchModule, ResizeModule, CartoonModule, BackgroundModule}
  {
  }

  /** The same canvas contents for every module. */
  function EveryModule(img: Image): (r: map<ModuleKind, Image>)
    ensures forall m: ModuleKind :: m in r && r[m] == img
  {
    var r := map[SketchModule := img, ResizeModule := img, CartoonModule := img, BackgroundModule := img];
    forall m: ModuleKind ensures m in r && r[m] == img {
      EveryModuleListed(m);
    }
    r
  }

  /** The decoded image drawn at the load-time bound, as `setupGlobalImage` draws it. */
  function LoadedImage(img: Image, scale: Resampler): Image
  {
    var size := ResizedDimensions(img.width, img.height, MaxDimension);
    scale(img, size.width, size.height)
  }

  /** The browser's scaling `drawImage(source, 0, 0, width, height)`: its pixels are
      not part of this model, only that it fills the requested size. */
  type Resampler = (Image, nat, nat) -> Image

  ghost predicate Resamples(scale: Resampler)
  {
    forall img: Image, w: nat, h: nat :: scale(img, w, h).width == w && scale(img, w, h).height == h
  }

  /** A canvas redrawn onto itself through `ctx.filter = blur(radius px)`: its pixels are
      not part of this model, only that the canvas keeps its size. */
  type Blur = (Image, real) -> Image

  ghost predicate KeepsSize(blur: Blur)
  {
    forall img: Image, radius: real :: SameSize(blur(img, radius), img)
  }

  /** The width or height typed into the resize form, after `parseInt`; `None` is NaN. */
  predicate ValidSide(v: Option<int>)
  {
    v.Some? && v.value > 0
  }

  /** The sketch canvas after `applySketchEffect`: grey, then darkened along edges, then
      blurred by smoothing / 2 pixels when smoothing is positive. Unblurred, every pixel is
      grey and keeps its alpha. */
  function SketchImage(img: Image, intensity: int, detail: int, smoothing: int, blur: Blur): (r: Image)
    requires !HasNoArea(img) && KeepsSize(blur)
    ensures SameSize(r, img)
    ensures smoothing <= 0 ==> IsGrey(r.data) && forall k :: 0 <= k < |r.data| && k % 4 == 3 ==> r.data[k] == img.data[k]
  {
    WholePixels(img);
    var sketched: Image := Bitmap(img.width, img.height, SketchEffect(img.data, img.width, intensity, detail));
    SketchEffectShape(img.data, img.width, intensity, detail);
    if smoothing > 0 then blur(sketched, smoothing as real / 2.0) else sketched
  }

  /** The cartoon canvas after `applyCartoonEffect`: colours quantised to `colorLevels`
      steps, then blurred by intensity / 2 pixels. */
  function CartoonImage(img: Image, intensity: int, colorLevels: int, blur: Blur): (r: Image)
    requires KeepsSize(blur)
    ensures SameSize(r, img)
  {
    var quantised: Image := Bitmap(img.width, img.height, QuantizeSpec(img.data, colorLevels));
    blur(quantised, intensity as real / 2.0)
  }

  /** The background canvas after `applyBackgroundRemoval`: same size and same colours,
      only alpha keyed against `key`. */
  function KeyedImage(img: Image, key: Rgb, threshold: int, feather: int): (r: Image)
    ensures SameSize(r, img)
    ensures forall k :: 0 <= k < |r.data| && k % 4 != 3 ==> r.data[k] == img.data[k]
  {
    WholePixels(img);
    var keyed := RemoveBackgroundSpec(img.data, key, threshold, feather);
    Bitmap(img.width, img.height, keyed)
  }

  /** `getImageData` over a whole canvas: a fresh byte array holding its pixels. */
  method GetImageData(img: Image) returns (data: array<Byte>)
    ensures fresh(data) && data[..] == img.data
  {
    data := new Byte[|img.data|](k requires 0 <= k < |img.data| => img.data[k]);
  }

  class ImageEditor {
    /** The tab last switched to: 0 is the preview, 1 to 4 the effect modules. */
    var currentModule: int
    /** The decoded upload at its own size; `None` until an image has loaded. */
    var originalImage: Option<Image>
    /** The byte size of the last file accepted for loading. */
    var originalFileSize: nat
    /** The working image every module's result is handed to, and what is downloaded. */
    var currentImageData: Option<Image>
    var preview: Image
    var before: map<ModuleKind, Image>
    var after: map<ModuleKind, Image>

    /** Every module has both canvases; only the resize module's pair can differ in
        size (applying a resize resizes its after canvas alone); the working image is
        always a read-back of a canvas with pixels. */
    ghost predicate Valid()
      reads this
    {
      && (forall m: ModuleKind :: m in before && m in after)
      && (forall m: ModuleKind :: m != ResizeModule ==> SameSize(before[m], after[m]))
      && (currentImageData.Some? ==> !HasNoArea(currentImageData.value))
    }

    /** A fresh editor: no image, the preview tab, and every canvas at the size the page
        gives it. */
    constructor (canvasWidth: nat, canvasHeight: nat)
      ensures Valid()
      ensures currentModule == 0 && originalImage == None && currentImageData == None && originalFileSize == 0
      ensures preview == Blank(canvasWidth, canvasHeight)
      ensures before == EveryModule(Blank(canvasWidth, canvasHeight)) && after == before
    {
      var blank := Blank(canvasWidth, canvasHeight);
      currentModule := 0;
      originalImage := None;
      originalFileSize := 0;
      currentImageData := None;
      preview := blank;
      before := EveryModule(blank);
      after := EveryModule(blank);
    }

    /** `loadImage` followed, once the file has decoded, by `setupGlobalImage`. A name
        without a supported extension is turned away before anything changes. */
    method LoadImage(name: string, fileSize: nat, decoded: Option<Image>, scale: Resampler) returns (accepted: bool)
      requires Valid() && Resamples(scale)
      modifies this`originalFileSize, this`originalImage, this`preview, this`before, this`after, this`currentImageData
      ensures Valid()
      ensures accepted == IsSupportedFileName(name)
      ensures !accepted ==> unchanged(this)
      ensures accepted ==> originalFileSize == fileSize
      ensures accepted && decoded.None? ==>
                && originalImage == old(originalImage) && currentImageData == old(currentImageData)
                && preview == old(preview) && before == old(before) && after == old(after)
      ensures accepted && decoded.Some? ==>
                var scaled := LoadedImage(decoded.value, scale);
                && originalImage == decoded
                && preview == scaled && before == EveryModule(scaled) && after == EveryModule(scaled)
                && currentImageData == if HasNoArea(scaled) then old(currentImageData) else Some(scaled)
    {
      accepted := IsSupportedFileName(name);
      if accepted {
        ReadFile(fileSize, decoded, scale);
      }
    }

    /** The part of `loadImage` past the extension check, with the reader's `onload`: the
        file size is recorded, and a file that decodes (`decoded != None`) is set up as the
        new image, while one that fails to decode leaves everything else as it was. */
    method ReadFile(fileSize: nat, decoded: Option<Image>, scale: Resampler)
      requires Valid() && Resamples(scale)
      modifies this`originalFileSize, this`originalImage, this`preview, this`before, this`after, this`currentImageData
      ensures Valid()
      ensures originalFileSize == fileSize
      ensures decoded.None? ==>
                && originalImage == old(originalImage) && currentImageData == old(currentImageData)
                && preview == old(preview) && before == old(before) && after == old(after)
      ensures decoded.Some? ==>
                var scaled := LoadedImage(decoded.value, scale);
                && originalImage == decoded
                && preview == scaled && before == EveryModule(scaled) && after == EveryModule(scaled)
                && currentImageData == if HasNoArea(scaled) then old(currentImageData) else Some(scaled)
    {
      originalFileSize := fileSize;
      if decoded.Some? {
        ImageLoaded(decoded.value, scale);
      }
    }

    /** The image's `onload` handler: the decoded image is kept as the original and the
        canvases are set up from it. */
    method ImageLoaded(img: Image, scale: Resampler)
      requires Valid() && Resamples(scale)
      modifies this`originalImage, this`preview, this`before, this`after, this`currentImageData
      ensures Valid()
      ensures var scaled := LoadedImage(img, scale);
              && originalImage == Some(img)
              && preview == scaled && before == EveryModule(scaled) && after == EveryModule(scaled)
              && currentImageData == if HasNoArea(scaled) then old(currentImageData) else Some(scaled)
    {
      originalImage := Some(img);
      SetupGlobalImage(scale);
    }

    /** `setupGlobalImage`: every canvas takes the bounded size of the loaded image (which
        clears it); the preview and the before canvases receive the image scaled to that
        size, each after canvas a copy of its before canvas, and the working image is read
        back from the preview. An image bounded to no area stops at the first copy, since
        drawing from an empty canvas throws. */
    method SetupGlobalImage(scale: Resampler)
      requires Valid() && Resamples(scale) && originalImage.Some?
      modifies this`preview, this`before, this`after, this`currentImageData
      ensures Valid()
      ensures var img := originalImage.value;
              var size := ResizedDimensions(img.width, img.height, MaxDimension);
              var scaled := LoadedImage(img, scale);
              && SameSize(scaled, Blank(size.width, size.height))
              && preview == scaled && before == EveryModule(scaled) && after == EveryModule(scaled)
              && currentImageData == if HasNoArea(scaled) then old(currentImageData) else Some(scaled)
    {
      var img := originalImage.value;
      var size := ResizedDimensions(img.width, img.height, MaxDimension);
      var cleared := Blank(size.width, size.height);
      preview := cleared;
      before := EveryModule(cleared);
      after := EveryModule(cleared);
      var scaled := LoadedImage(img, scale);
      preview := scaled;
      before := EveryModule(scaled);
      if HasNoArea(scaled) {
        // the after canvases stay cleared, which for a canvas without pixels is the image
        NoAreaIsBlank(scaled);
        return;
      }
      after := EveryModule(scaled);
      currentImageData := Some(scaled);
    }

    /** `switchModule` and `syncImageToModule`: record the tab; when an image is being
        worked on and the tab is a module, put the working image onto both of that
        module's canvases at the origin. `putImageData` does not resize a canvas, so a
        canvas of another size is only partly overwritten (see `Raster.Paste`). */
    method SwitchModule(id: int)
      requires Valid()
      modifies this`currentModule, this`before, this`after
      ensures Valid()
      ensures currentModule == id
      ensures currentImageData.None? || ModuleOf(id).None? ==> before == old(before) && after == old(after)
      ensures currentImageData.Some? && ModuleOf(id).Some? ==>
                var m, current := ModuleOf(id).value, currentImageData.value;
                && before == old(before)[m := Paste(old(before)[m], current)]
                && after == old(after)[m := Paste(old(after)[m], current)]
    {
      currentModule := id;
      if currentImageData.Some? && id > 0 {
        SyncImageToModule(id);
      }
    }

    method SyncImageToModule(id: int)
      requires Valid() && currentImageData.Some?
      modifies this`before, this`after
      ensures Valid()
      ensures ModuleOf(id).None? ==> before == old(before) && after == old(after)
      ensures ModuleOf(id).Some? ==>
                var m, current := ModuleOf(id).value, currentImageData.value;
                && before == old(before)[m := Paste(old(before)[m], current)]
                && after == old(after)[m := Paste(old(after)[m], current)]
    {
      var keys := ModuleOf(id);
      if keys.Some? {
        var m, current := keys.value, currentImageData.value;
        before := before[m := Paste(before[m], current)];
        after := after[m := Paste(after[m], current)];
      }
    }

    /** `updateCurrentImage`: the working image becomes the read-back of the given canvas,
        and the preview is resized to it and receives it. */
    method UpdateCurrentImage(img: Image)
      requires Valid() && !HasNoArea(img)
      modifies this`currentImageData, this`preview
      ensures Valid()
      ensures currentImageData == Some(img) && preview == img
    {
      currentImageData := Some(img);
      var cleared := Blank(img.width, img.height);
      preview := Paste(cleared, img);
      PasteSameSize(cleared, img);
    }

    /** `applySketchEffect`: without a loaded image nothing happens. Otherwise the before
        canvas is drawn onto the after canvas, the result turned grey and sketched in
        place, blurred when smoothing is positive, and handed to the working image. */
    method ApplySketch(intensity: int, detail: int, smoothing: int, blur: Blur)
      requires Valid() && KeepsSize(blur)
      modifies this`after, this`currentImageData, this`preview
      ensures Valid()
      ensures var source := Paste(old(after)[SketchModule], before[SketchModule]);
              if originalImage.None? || HasNoArea(before[SketchModule]) || HasNoArea(source) then
                after == old(after) && currentImageData == old(currentImageData) && preview == old(preview)
              else
                var r := SketchImage(source, intensity, detail, smoothing, blur);
                after == old(after)[SketchModule := r] && currentImageData == Some(r) && preview == r
    {
      if originalImage.None? {
        return;
      }
      var b, a := before[SketchModule], after[SketchModule];
      if HasNoArea(b) || HasNoArea(a) {
        // drawing from, or reading back, a canvas without pixels throws
        return;
      }
      var source := Paste(a, b);
      WholePixels(source);
      var data := GetImageData(source);
      ApplyGrayscale(data);
      SketchPass(data, source.width, intensity, detail);
      var result: Image := Bitmap(source.width, source.height, data[..]);
      if smoothing > 0 {
        result := blur(result, smoothing as real / 2.0);
      }
      assert result == SketchImage(source, intensity, detail, smoothing, blur);
      after := after[SketchModule := result];
      UpdateCurrentImage(result);
    }

    /** `applyResize`, which needs no loaded image: a width or height that is NaN, zero or
        negative is refused with nothing changed. Otherwise the after canvas takes the new
        size and receives the before canvas scaled to it, which becomes the working image;
        the estimated compressed size is reported. Scaling from a canvas without pixels
        throws once the after canvas has been resized. */
    method ApplyResize(width: Option<int>, height: Option<int>, quality: int, scale: Resampler)
      returns (estimate: Option<int>)
      requires Valid() && Resamples(scale)
      modifies this`after, this`currentImageData, this`preview
      ensures Valid()
      ensures !(ValidSide(width) && ValidSide(height)) ==>
                && after == old(after) && currentImageData == old(currentImageData) && preview == old(preview)
                && estimate == None
      ensures ValidSide(width) && ValidSide(height) && HasNoArea(before[ResizeModule]) ==>
                && after == old(after)[ResizeModule := Blank(width.value, height.value)]
                && currentImageData == old(currentImageData) && preview == old(preview) && estimate == None
      ensures ValidSide(width) && ValidSide(height) && !HasNoArea(before[ResizeModule]) ==>
                var r := scale(before[ResizeModule], width.value, height.value);
                && SameSize(r, Blank(width.value, height.value))
                && after == old(after)[ResizeModule := r] && currentImageData == Some(r) && preview == r
                && estimate == Some(EstimatedSize(originalFileSize, quality))
    {
      if !ValidSide(width) || !ValidSide(height) {
        estimate := None;
        return;
      }
      var w, h := width.value, height.value;
      after := after[ResizeModule := Blank(w, h)];
      var b := before[ResizeModule];
      if HasNoArea(b) {
        estimate := None;
        return;
      }
      var result := scale(b, w, h);
      after := after[ResizeModule := result];
      UpdateCurrentImage(result);
      estimate := Some(EstimatedSize(originalFileSize, quality));
    }

    /** `applyCartoonEffect`: without a loaded image nothing happens. Otherwise the before
        canvas is drawn onto the after canvas, its colours quantised in place, the result
        blurred by intensity / 2 pixels and handed to the working image. */
    method ApplyCartoon(intensity: int, colorLevels: int, blur: Blur)
      requires Valid() && KeepsSize(blur)
      modifies this`after, this`currentImageData, this`preview
      ensures Valid()
      ensures var source := Paste(old(after)[CartoonModule], before[CartoonModule]);
              if originalImage.None? || HasNoArea(before[CartoonModule]) || HasNoArea(source) then
                after == old(after) && currentImageData == old(currentImageData) && preview == old(preview)
              else
                var r := CartoonImage(source, intensity, colorLevels, blur);
                after == old(after)[CartoonModule := r] && currentImageData == Some(r) && preview == r
    {
      if originalImage.None? {
        return;
      }
      var b, a := before[CartoonModule], after[CartoonModule];
      if HasNoArea(b) || HasNoArea(a) {
        return;
      }
      var source := Paste(a, b);
      WholePixels(source);
      var data := GetImageData(source);
      QuantizeColours(data, colorLevels);
      var quantised: Image := Bitmap(source.width, source.height, data[..]);
      var result := blur(quantised, intensity as real / 2.0);
      assert result == CartoonImage(source, intensity, colorLevels, blur);
      after := after[CartoonModule := result];
      UpdateCurrentImage(result);
    }

    /** `applyBackgroundRemoval`: without a loaded image nothing happens. Otherwise the
        before canvas is drawn onto the after canvas, keyed in place against the picker's
        colour (white when the picker is empty or unreadable) and handed to the working
        image. */
    method ApplyBackgroundRemoval(threshold: int, feather: int, pickerValue: string)
      requires Valid()
      modifies this`after, this`currentImageData, this`preview
      ensures Valid()
      ensures var source := Paste(old(after)[BackgroundModule], before[BackgroundModule]);
              if originalImage.None? || HasNoArea(before[BackgroundModule]) || HasNoArea(source) then
                after == old(after) && currentImageData == old(currentImageData) && preview == old(preview)
              else
                var r := KeyedImage(source, HexToRgb(pickerValue), threshold, feather);
                after == old(after)[BackgroundModule := r] && currentImageData == Some(r) && preview == r
    {
      if originalImage.None? {
        return;
      }
      var b, a := before[BackgroundModule], after[BackgroundModule];
      if HasNoArea(b) || HasNoArea(a) {
        return;
      }
      var source := Paste(a, b);
      WholePixels(source);
      var data := GetImageData(source);
      RemoveBackground(data, PickerKey(pickerValue), threshold, feather);
      var result: Image := Bitmap(source.width, source.height, data[..]);
      assert result == KeyedImage(source, HexToRgb(pickerValue), threshold, feather);
      after := after[BackgroundModule := result];
      UpdateCurrentImage(result);
    }

    /** `resetModule`: the after canvas takes the before canvas's size (which clears it)
        and receives a copy of it. The working image is not touched. */
    method ResetModule(m: ModuleKind)
      requires Valid()
      modifies this`after
      ensures Valid()
      ensures after == old(after)[m := before[m]]
    {
      var b := before[m];
      var cleared := Blank(b.width, b.height);
      after := after[m := cleared];
      if HasNoArea(b) {
        // drawing from a canvas without pixels throws; the cleared canvas already is b
        NoAreaIsBlank(b);
      } else {
        after := after[m := b];
      }
      assert after[m] == before[m];
    }

    /** `downloadImage`: with no working image there is nothing to export; otherwise the
        image exported is exactly the working image, put onto a canvas of its own size. */
    method DownloadImage() returns (exported: Option<Image>)
      requires Valid()
      ensures exported.None? <==> currentImageData.None?
      ensures exported.Some? ==> exported.value == currentImageData.value
    {
      if currentImageData.None? {
        return None;
      }
      var current := currentImageData.value;
      var cleared := Blank(current.width, current.height);
      PasteSameSize(cleared, current);
      return Some(Paste(cleared, current));
    }
  }

  /** A file named `photo.jpg` is accepted. */
  lemma JpegAccepted()
    ensures IsSupportedFileName("photo.jpg")
  {
    var name := "photo.jpg";
    assert Lower(name[|name| - 3..]) == "jpg";
    assert HasExtension(name, "jpg");
    SupportedIffExtension(name);
  }

  /** Load a 1000 x 500 photograph, resize it to 400 x 200, open the cartoon tab. The
      working image is 400 x 200, but the cartoon canvases keep the 800 x 400 of the load:
      only their top-left 400 x 200 receive the resized image, the rest still shows the
      photograph as loaded. */
  method ResizeThenSwitchScenario(photo: Image, scale: Resampler) returns (loaded: Image, current: Image, cartoonBefore: Image)
    requires photo.width == 1000 && photo.height == 500 && Resamples(scale)
    ensures loaded.width == 800 && loaded.height == 400
    ensures current.width == 400 && current.height == 200
    ensures cartoonBefore.width == 800 && cartoonBefore.height == 400
    ensures forall x: nat, y: nat, c: nat {:trigger Pixel(cartoonBefore, x, y, c)} :: x < 800 && y < 400 && c < 4 ==>
              Pixel(cartoonBefore, x, y, c) == if x < 400 && y < 200 then Pixel(current, x, y, c) else Pixel(loaded, x, y, c)
  {
    var editor := new ImageEditor(300, 150);
    JpegAccepted();
    var accepted := editor.LoadImage("photo.jpg", 250000, Some(photo), scale);
    assert ResizedDimensions(1000, 500, MaxDimension) == Size(800, 400);
    loaded := editor.preview;
    var estimate := editor.ApplyResize(Some(400), Some(200), 90, scale);
    current := editor.currentImageData.value;
    editor.SwitchModule(3);
    cartoonBefore := editor.before[CartoonModule];
  }

  /** Load an image that already fits, sketch it, open the resize tab: the resize
      module's before canvas is now the sketch result, not the image as loaded. */
  method SketchThenSwitchScenario(photo: Image, scale: Resampler, blur: Blur,
                                  intensity: int, detail: int, smoothing: int)
    returns (sketched: Image, resizeBefore: Image)
    requires 0 < photo.width <= MaxDimension && 0 < photo.height <= MaxDimension
    requires Resamples(scale) && KeepsSize(blur)
    ensures resizeBefore == sketched
    ensures var loaded := scale(photo, photo.width, photo.height);
            sketched == SketchImage(loaded, intensity, detail, smoothing, blur)
  {
    var editor := new ImageEditor(300, 150);
    JpegAccepted();
    var accepted := editor.LoadImage("photo.jpg", 250000, Some(photo), scale);
    ResizedDimensionsBounded(photo.width, photo.height, MaxDimension);
    var loaded := editor.preview;
    PasteSameSize(loaded, loaded);
    editor.ApplySketch(intensity, detail, smoothing, blur);
    sketched := editor.currentImageData.value;
    editor.SwitchModule(2);
    PasteSameSize(loaded, sketched);
    resizeBefore := editor.before[ResizeModule];
  }
}
