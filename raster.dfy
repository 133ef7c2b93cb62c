/** The pixel buffer of a canvas (`ImageData`): width, height and the RGBA
    bytes in row-major order, four per pixel. */
module Raster {
  import opened ByteMath

  datatype Bitmap = Bitmap(width: nat, height: nat, data: seq<Byte>)

  /** A bitmap whose byte count matches its dimensions, as every canvas's has. */
  type Image = b: Bitmap | |b.data| == 4 * b.width * b.height witness Bitmap(0, 0, [])

  predicate SameSize(a: Image, b: Image)
  {
    a.width == b.width && a.height == b.height
  }

  /** A canvas with no pixels: reading it back (`getImageData`) or drawing from it
      (`drawImage`) throws in the browser. */
  predicate HasNoArea(a: Image)
  {
    a.width == 0 || a.height == 0
  }

  /** The contents of a canvas right after its width or height is set: every byte 0
      (transparent black). */
  function Blank(width: nat, height: nat): (r: Image)
    ensures r.width == width && r.height == height
    ensures forall k :: 0 <= k < |r.data| ==> r.data[k] == 0
  {
    Bitmap(width, height, seq(4 * width * height, _ => 0))
  }

  /** The position of channel `c` of pixel (x, y) in a buffer `width` pixels wide. */
  function ByteIndex(width: nat, height: nat, x: nat, y: nat, c: nat): (k: nat)
    requires x < width && y < height && c < 4
    ensures k < 4 * width * height
    ensures k / 4 % width == x && k / 4 / width == y && k % 4 == c
  {
    assert y * width + x < height * width by {
      assert y * width <= (height - 1) * width;
    }
    DivModUnique(4 * (y * width + x) + c, 4, c, y * width + x);
    DivModUnique(y * width + x, width, x, y);
    4 * (y * width + x) + c
  }

  /** Channel `c` (0 = R, 1 = G, 2 = B, 3 = A) of pixel (x, y). */
  function Pixel(img: Image, x: nat, y: nat, c: nat): Byte
    requires x < img.width && y < img.height && c < 4
  {
    img.data[ByteIndex(img.width, img.height, x, y, c)]
  }

  /** Every byte index decomposes into a pixel position and a channel. */
  lemma ByteIndexOf(width: nat, height: nat, k: nat)
    requires k < 4 * width * height
    ensures width > 0 && k / 4 % width < width && k / 4 / width < height
    ensures ByteIndex(width, height, k / 4 % width, k / 4 / width, k % 4) == k
  {
    var p := k / 4;
    assert k == 4 * p + k % 4;
    assert p < width * height;
    if p / width >= height {
      MulMonotone(height, p / width, width);
    }
    assert p / width * width + p % width == p;
  }

  /** The red byte `p` of the pixel that byte `k` belongs to, and which of its four bytes
      `k` is. */
  lemma PixelOf(k: nat) returns (p: nat)
    ensures p % 4 == 0 && p <= k < p + 4 && p == k - k % 4
    ensures k == p || k == p + 1 || k == p + 2 || k == p + 3
    ensures k % 4 == 3 <==> k == p + 3
  {
    p := k - k % 4;
  }

  /** A pixel boundary before the end of a whole number of pixels is followed by a
      complete pixel. */
  lemma NextPixel(i: int, n: int)
    requires 0 <= i < n && i % 4 == 0 && n % 4 == 0
    ensures i + 4 <= n && (i + 4) % 4 == 0
  {
  }

  /** The three bytes after a red byte are its green, blue and alpha. */
  lemma ChannelOffsets(k: int)
    requires k % 4 == 0
    ensures (k + 1) % 4 == 1 && (k + 2) % 4 == 2 && (k + 3) % 4 == 3
  {
    var p := k / 4;
    assert k == 4 * p;
  }

  /** `putImageData(src, 0, 0)` on a canvas that holds `dst`: the canvas keeps its own
      size; where the two overlap, src's pixels replace dst's (alpha included, no
      blending); elsewhere dst is untouched. */
  function Paste(dst: Image, src: Image): (r: Image)
    ensures SameSize(r, dst)
    ensures forall x: nat, y: nat, c: nat {:trigger Pixel(r, x, y, c)} ::
              x < dst.width && y < dst.height && c < 4 ==>
                Pixel(r, x, y, c) == if x < src.width && y < src.height then Pixel(src, x, y, c) else Pixel(dst, x, y, c)
  {
    var n := 4 * dst.width * dst.height;
    var data := seq(n, k requires 0 <= k < n =>
                  ByteIndexOf(dst.width, dst.height, k);
                  var x, y := k / 4 % dst.width, k / 4 / dst.width;
                  if x < src.width && y < src.height then Pixel(src, x, y, k % 4) else dst.data[k]);
    Bitmap(dst.width, dst.height, data)
  }

  /** Pasting an image onto a canvas of its own size replaces the canvas contents entirely. */
  lemma PasteSameSize(dst: Image, src: Image)
    requires SameSize(dst, src)
    ensures Paste(dst, src) == src
  {
    var r := Paste(dst, src);
    forall k | 0 <= k < |src.data|
      ensures r.data[k] == src.data[k]
    {
      PasteSameSizeAt(dst, src, k);
    }
    assert r.data == src.data;
  }

  lemma PasteSameSizeAt(dst: Image, src: Image, k: nat)
    requires SameSize(dst, src) && k < |dst.data|
    ensures |Paste(dst, src).data| == |dst.data| && Paste(dst, src).data[k] == src.data[k]
  {
    PasteAt(dst, src, k);
    ByteIndexOf(dst.width, dst.height, k);
  }

  /** Byte k of a pasted canvas: the source's byte at the same pixel and channel when that
      pixel lies inside the source, the canvas's own byte otherwise. */
  lemma PasteAt(dst: Image, src: Image, k: nat)
    requires k < |dst.data|
    ensures dst.width > 0 && |Paste(dst, src).data| == |dst.data|
    ensures var x, y := k / 4 % dst.width, k / 4 / dst.width;
            Paste(dst, src).data[k] == if x < src.width && y < src.height then Pixel(src, x, y, k % 4) else dst.data[k]
  {
    ByteIndexOf(dst.width, dst.height, k);
  }

  /** Pasting the same image twice leaves what pasting it once does. */
  lemma PasteTwice(dst: Image, src: Image)
    ensures Paste(Paste(dst, src), src) == Paste(dst, src)
  {
    var once := Paste(dst, src);
    var twice := Paste(once, src);
    forall k | 0 <= k < |once.data|
      ensures twice.data[k] == once.data[k]
    {
      PasteTwiceAt(dst, src, k);
    }
    assert twice.data == once.data;
  }

  lemma PasteTwiceAt(dst: Image, src: Image, k: nat)
    requires k < |dst.data|
    ensures var once := Paste(dst, src);
            |Paste(once, src).data| == |once.data| == |dst.data| && Paste(once, src).data[k] == once.data[k]
  {
    PasteAt(dst, src, k);
    PasteAt(Paste(dst, src), src, k);
  }

  /** A canvas without pixels holds no bytes, so it is the cleared canvas of its size. */
  lemma NoAreaIsBlank(a: Image)
    requires HasNoArea(a)
    ensures a == Blank(a.width, a.height)
  {
    assert 4 * a.width * a.height == 0;
  }

  /** A canvas holds whole pixels of four bytes each. */
  lemma WholePixels(a: Image)
    ensures |a.data| % 4 == 0 && |a.data| == 4 * (a.width * a.height)
  {
    var n := a.width * a.height;
    assert |a.data| == 4 * n;
  }
}
