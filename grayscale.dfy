/** `applyGrayscale`: every pixel's red, green and blue become its luma,
    rounded; alpha is left alone. */
module Grayscale {
  import opened ByteMath
  import opened Raster

  function Min3(a: int, b: int, c: int): int
  {
    if a <= b && a <= c then a else if b <= c then b else c
  }

  function Max3(a: int, b: int, c: int): int
  {
    if a >= b && a >= c then a else if b >= c then b else c
  }

  /** The grey level of a pixel: its weighted mean 0.299 r + 0.587 g + 0.114 b, rounded
      half up, computed on integers in thousandths. */
  function Luma(r: Byte, g: Byte, b: Byte): Byte
  {
    (299 * r + 587 * g + 114 * b + 500) / 1000
  }

  /** The weights sum to one, so the grey level lies between the darkest and the brightest
      channel, and a pixel that is already grey keeps its level. */
  lemma LumaBounds(r: Byte, g: Byte, b: Byte)
    ensures Min3(r, g, b) <= Luma(r, g, b) <= Max3(r, g, b)
    ensures r == g == b ==> Luma(r, g, b) == r
  {
    var lo, hi := Min3(r, g, b), Max3(r, g, b);
    assert 1000 * lo <= 299 * r + 587 * g + 114 * b <= 1000 * hi;
  }

  /** `Math.round(0.299 * r + 0.587 * g + 0.114 * b)`, as `applyGrayscale` writes it,
      is the integer formula above. */
  lemma LumaIsRoundedMean(r: Byte, g: Byte, b: Byte)
    ensures Luma(r, g, b) == Round(0.299 * r as real + 0.587 * g as real + 0.114 * b as real)
  {
    var n := 299 * r + 587 * g + 114 * b + 500;
    assert 0.299 * r as real + 0.587 * g as real + 0.114 * b as real + 0.5 == n as real / 1000.0;
    var q, m := n / 1000, n % 1000;
    assert n as real / 1000.0 == q as real + m as real / 1000.0;
  }

  /** The buffer `applyGrayscale` leaves behind, defined pixel by pixel on the original. */
  function GrayscaleSpec(s: seq<Byte>): (r: seq<Byte>)
    requires |s| % 4 == 0
    ensures |r| == |s|
  {
    seq(|s|, k requires 0 <= k < |s| =>
      if k % 4 == 0 then Luma(s[k], s[k + 1], s[k + 2])
      else if k % 4 == 1 then Luma(s[k - 1], s[k], s[k + 1])
      else if k % 4 == 2 then Luma(s[k - 2], s[k - 1], s[k])
      else s[k])
  }

  /** Every pixel ends grey (R = G = B) at its luma, and its alpha is untouched;
      `k` is the index of the pixel's red byte. */
  lemma GrayscalePixel(s: seq<Byte>, k: nat)
    requires |s| % 4 == 0 && k % 4 == 0 && k < |s|
    ensures k + 3 < |s|
    ensures |GrayscaleSpec(s)| == |s|
    ensures var g, v := GrayscaleSpec(s), Luma(s[k], s[k + 1], s[k + 2]);
            g[k] == v && g[k + 1] == v && g[k + 2] == v && g[k + 3] == s[k + 3]
  {
    NextPixel(k, |s|);
    ChannelOffsets(k);
  }

  /** The pixel whose red byte is `p` is grey: R = G = B. */
  predicate GreyPixel(t: seq<Byte>, p: nat)
    requires p + 2 < |t|
  {
    t[p] == t[p + 1] == t[p + 2]
  }

  /** Every pixel of the buffer is grey. */
  predicate IsGrey(t: seq<Byte>)
  {
    forall p: nat :: p + 2 < |t| && p % 4 == 0 ==> GreyPixel(t, p)
  }

  /** The converted buffer is grey. */
  lemma GrayscaleIsGrey(s: seq<Byte>)
    requires |s| % 4 == 0
    ensures IsGrey(GrayscaleSpec(s))
  {
    forall p: nat | p + 2 < |s| && p % 4 == 0
      ensures GreyPixel(GrayscaleSpec(s), p)
    {
      GrayscalePixel(s, p);
    }
  }

  /** Converting a grey buffer changes nothing: a grey pixel's luma is its own level. */
  lemma GreyIsFixed(t: seq<Byte>)
    requires |t| % 4 == 0 && IsGrey(t)
    ensures GrayscaleSpec(t) == t
  {
    forall k | 0 <= k < |t|
      ensures GrayscaleSpec(t)[k] == t[k]
    {
      var p := PixelOf(k);
      GreyByteIsFixed(t, p, k);
    }
  }

  /** One byte of a grey buffer survives conversion; `p` is its pixel's red byte. */
  lemma GreyByteIsFixed(t: seq<Byte>, p: nat, k: nat)
    requires |t| % 4 == 0 && p % 4 == 0 && p < |t| && GreyPixel(t, p)
    requires k == p || k == p + 1 || k == p + 2 || k == p + 3
    ensures GrayscaleSpec(t)[k] == t[k]
  {
    GrayscalePixel(t, p);
    LumaBounds(t[p], t[p], t[p]);
  }

  /** Converting to grey twice is the same as once. */
  lemma GrayscaleIdempotent(s: seq<Byte>)
    requires |s| % 4 == 0
    ensures GrayscaleSpec(GrayscaleSpec(s)) == GrayscaleSpec(s)
  {
    GrayscaleIsGrey(s);
    GreyIsFixed(GrayscaleSpec(s));
  }

  /** The loop of `applyGrayscale`, rewriting the `ImageData` bytes in place four at a time. */
  method ApplyGrayscale(data: array<Byte>)
    requires data.Length % 4 == 0
    modifies data
    ensures data[..] == GrayscaleSpec(old(data[..]))
  {
    ghost var spec := GrayscaleSpec(data[..]);
    ghost var original := data[..];
    var i := 0;
    while i < data.Length
      invariant 0 <= i <= data.Length && i % 4 == 0
      invariant forall k {:trigger data[k]} :: 0 <= k < i ==> data[k] == spec[k]
      invariant forall k {:trigger data[k]} :: i <= k < data.Length ==> data[k] == original[k]
    {
      NextPixel(i, data.Length);
      GrayscalePixel(original, i);
      assert data[i] == original[i] && data[i + 1] == original[i + 1] && data[i + 2] == original[i + 2];
      var gray := Luma(data[i], data[i + 1], data[i + 2]);
      assert spec[i] == gray && spec[i + 1] == gray && spec[i + 2] == gray && spec[i + 3] == data[i + 3];
      data[i] := gray;
      data[i + 1] := gray;
      data[i + 2] := gray;
      assert forall k {:trigger data[k]} :: i <= k < i + 4 ==> k == i || k == i + 1 || k == i + 2 || k == i + 3;
      i := i + 4;
    }
  }
}
