/** The pencil-sketch pass of `applySketchEffect`: after the image is turned
    grey, each pixel is darkened by how much its grey level differs from the
    pixels to its right and below it (`calculateEdgeIntensity`). */
module Sketch {
  import opened ByteMath
  import opened Raster
  import opened Grayscale

  /** `data[j] || current`: a neighbour that is 0 (black) or lies past the end of the
      buffer is read as the current value. */
  function NeighbourOr(s: seq<Byte>, j: nat, current: Byte): Byte
  {
    if j < |s| && s[j] != 0 then s[j] else current
  }

  /** The summed difference `calculateEdgeIntensity` finds at the red byte `index` of a
      pixel, before scaling: 0 in column 0, row 0 and the last column; elsewhere the
      differences to the right and lower neighbours. */
  function EdgeSum(s: seq<Byte>, index: nat, width: nat): (e: nat)
    requires index % 4 == 0 && index < |s| && width > 0
    ensures e <= 510
  {
    var x := index / 4 % width;
    var y := index / 4 / width;
    if x == 0 || y == 0 || x >= width - 1 then 0
    else
      var current := s[index];
      var right := NeighbourOr(s, index + 4, current);
      var below := NeighbourOr(s, index + width * 4, current);
      Abs(current - right) + Abs(current - below)
  }

  /** A neighbour that is missing, black or equal to the pixel adds nothing to its edge. */
  predicate NeighbourMatches(s: seq<Byte>, j: nat, current: Byte)
  {
    j >= |s| || s[j] == 0 || s[j] == current
  }

  /** No edge is found on the border, nor where both neighbours match the pixel. */
  lemma EdgeSumZero(s: seq<Byte>, index: nat, width: nat)
    requires index % 4 == 0 && index < |s| && width > 0
    requires var x, y := index / 4 % width, index / 4 / width;
             || x == 0 || y == 0 || x >= width - 1
             || (NeighbourMatches(s, index + 4, s[index]) && NeighbourMatches(s, index + width * 4, s[index]))
    ensures EdgeSum(s, index, width) == 0
  {
    var x, y := index / 4 % width, index / 4 / width;
    if !(x == 0 || y == 0 || x >= width - 1) {
      assert NeighbourOr(s, index + 4, s[index]) == s[index];
      assert NeighbourOr(s, index + width * 4, s[index]) == s[index];
    }
  }

  /** The edge of a pixel reads only that pixel and later bytes of the buffer. */
  lemma EdgeReadsAhead(a: seq<Byte>, b: seq<Byte>, index: nat, width: nat)
    requires |a| == |b| && index % 4 == 0 && index < |a| && width > 0
    requires forall j :: index <= j < |a| ==> a[j] == b[j]
    ensures EdgeSum(a, index, width) == EdgeSum(b, index, width)
  {
  }

  /** `Math.max(0, 255 - edgeValue * (intensity / 2))` stored into a byte, where
      `edgeValue` is `sum * (detail / 5)`: computed on integers as (2550 - sum * detail *
      intensity) / 10. */
  function SketchValue(sum: nat, detail: int, intensity: int): Byte
  {
    StoreQuotient(2550 - sum * detail * intensity, 10)
  }

  /** Without an edge a pixel turns white; an edge whose darkening reaches 255 turns it
      black. */
  lemma SketchValueEnds(sum: nat, detail: int, intensity: int)
    ensures sum == 0 ==> SketchValue(sum, detail, intensity) == 255
    ensures sum * detail * intensity >= 2550 ==> SketchValue(sum, detail, intensity) == 0
  {
  }

  /** The integer definition is the script's formula over exact numbers. */
  lemma SketchValueIsScriptFormula(sum: nat, detail: int, intensity: int)
    ensures var edgeValue := sum as real * (detail as real / 5.0);
            SketchValue(sum, detail, intensity) == ClampByte(MaxReal(0.0, 255.0 - edgeValue * (intensity as real / 2.0)))
  {
    var n := 2550 - sum * detail * intensity;
    var x := 255.0 - sum as real * (detail as real / 5.0) * (intensity as real / 2.0);
    ScaledProduct(sum, detail, intensity);
    StoreQuotientIsClampByte(n, 10);
  }

  /** sum * (detail / 5) * (intensity / 2) taken away from 255 is (2550 - sum * detail *
      intensity) / 10. */
  lemma ScaledProduct(sum: int, detail: int, intensity: int)
    ensures 255.0 - sum as real * (detail as real / 5.0) * (intensity as real / 2.0)
            == (2550 - sum * detail * intensity) as real / 10.0
  {
    CastMul(sum, detail);
    CastMul(sum * detail, intensity);
  }

  /** The sketch pass over a grey buffer, every edge computed from the unmodified grey
      values: red, green and blue of a pixel get the sketch value of its edge, alpha is
      kept. */
  function SketchSpec(g: seq<Byte>, width: nat, intensity: int, detail: int): (r: seq<Byte>)
    requires |g| % 4 == 0 && width > 0
    ensures |r| == |g|
  {
    seq(|g|, k requires 0 <= k < |g| =>
      if k % 4 == 3 then g[k]
      else SketchValue(EdgeSum(g, k - k % 4, width), detail, intensity))
  }

  /** Each pixel's red, green and blue receive one sketch value and its alpha is kept;
      `k` is the index of the pixel's red byte. */
  lemma SketchPixel(g: seq<Byte>, width: nat, intensity: int, detail: int, k: nat)
    requires |g| % 4 == 0 && width > 0 && k % 4 == 0 && k < |g|
    ensures k + 3 < |g|
    ensures var r, v := SketchSpec(g, width, intensity, detail), SketchValue(EdgeSum(g, k, width), detail, intensity);
            r[k] == v && r[k + 1] == v && r[k + 2] == v && r[k + 3] == g[k + 3]
  {
    NextPixel(k, |g|);
    var r := SketchSpec(g, width, intensity, detail);
    ChannelOffsets(k);
    assert r[k + 1] == SketchValue(EdgeSum(g, k + 1 - 1, width), detail, intensity);
    assert r[k + 2] == SketchValue(EdgeSum(g, k + 2 - 2, width), detail, intensity);
  }

  /** The whole effect before smoothing: grey first, then the sketch pass. */
  function SketchEffect(before: seq<Byte>, width: nat, intensity: int, detail: int): (r: seq<Byte>)
    requires |before| % 4 == 0 && width > 0
    ensures |r| == |before|
  {
    SketchSpec(GrayscaleSpec(before), width, intensity, detail)
  }

  /** The effect leaves every pixel grey and every alpha as it was. */
  lemma SketchEffectShape(before: seq<Byte>, width: nat, intensity: int, detail: int)
    requires |before| % 4 == 0 && width > 0
    ensures var r := SketchEffect(before, width, intensity, detail);
            && IsGrey(r)
            && forall k :: 0 <= k < |r| && k % 4 == 3 ==> r[k] == before[k]
  {
    var g := GrayscaleSpec(before);
    var r := SketchEffect(before, width, intensity, detail);
    forall p: nat | p + 2 < |r| && p % 4 == 0
      ensures GreyPixel(r, p)
    {
      SketchPixel(g, width, intensity, detail, p);
    }
    forall k | 0 <= k < |r| && k % 4 == 3
      ensures r[k] == before[k]
    {
      var p := PixelOf(k);
      SketchPixel(g, width, intensity, detail, p);
      GrayscalePixel(before, p);
    }
  }

  /** The red, green and blue bytes of the pixel whose red byte is `k`. */
  function ColourAt(s: seq<Byte>, k: nat): (Byte, Byte, Byte)
    requires k + 2 < |s|
  {
    (s[k], s[k + 1], s[k + 2])
  }

  /** Every pixel has the colour (r, g, b); alpha may vary. */
  predicate IsFlat(s: seq<Byte>, r: Byte, g: Byte, b: Byte)
  {
    forall k: nat :: k + 2 < |s| && k % 4 == 0 ==> ColourAt(s, k) == (r, g, b)
  }

  /** Every red, green and blue byte of the buffer is `v`. */
  predicate Uniform(t: seq<Byte>, v: Byte)
  {
    forall k :: 0 <= k < |t| && k % 4 != 3 ==> t[k] == v
  }

  /** A single-coloured image turns into a uniform grey. */
  lemma FlatTurnsUniform(s: seq<Byte>, red: Byte, green: Byte, blue: Byte)
    requires |s| % 4 == 0 && IsFlat(s, red, green, blue)
    ensures Uniform(GrayscaleSpec(s), Luma(red, green, blue))
  {
    forall k | 0 <= k < |s| && k % 4 != 3
      ensures GrayscaleSpec(s)[k] == Luma(red, green, blue)
    {
      FlatByteGrey(s, red, green, blue, k);
    }
  }

  /** One colour byte of a single-coloured image turns into the colour's grey level. */
  lemma FlatByteGrey(s: seq<Byte>, red: Byte, green: Byte, blue: Byte, k: nat)
    requires |s| % 4 == 0 && IsFlat(s, red, green, blue) && k < |s| && k % 4 != 3
    ensures |GrayscaleSpec(s)| == |s| && GrayscaleSpec(s)[k] == Luma(red, green, blue)
  {
    var p := PixelOf(k);
    NextPixel(p, |s|);
    assert ColourAt(s, p) == (red, green, blue);
    assert s[p] == red && s[p + 1] == green && s[p + 2] == blue;
    GrayscalePixel(s, p);
  }

  /** A uniform buffer has no edge anywhere. */
  lemma UniformHasNoEdge(t: seq<Byte>, v: Byte, width: nat, index: nat)
    requires index % 4 == 0 && index < |t| && width > 0 && Uniform(t, v)
    ensures EdgeSum(t, index, width) == 0
  {
    assert (index + 4) % 4 == 0 && (index + width * 4) % 4 == 0;
    EdgeSumZero(t, index, width);
  }

  /** A uniform buffer sketches to white, keeping its alpha. */
  lemma UniformSketchesWhite(t: seq<Byte>, v: Byte, width: nat, intensity: int, detail: int, k: nat)
    requires |t| % 4 == 0 && width > 0 && k < |t| && Uniform(t, v)
    ensures SketchSpec(t, width, intensity, detail)[k] == if k % 4 == 3 then t[k] else 255
  {
    var p := PixelOf(k);
    UniformHasNoEdge(t, v, width, p);
    SketchValueEnds(0, detail, intensity);
    SketchPixel(t, width, intensity, detail, p);
  }

  /** An image of a single colour has no edges, so it sketches to pure white whatever the
      intensity and detail; alpha is kept. */
  lemma FlatImageSketchesWhite(s: seq<Byte>, red: Byte, green: Byte, blue: Byte, width: nat, intensity: int, detail: int)
    requires |s| % 4 == 0 && width > 0 && IsFlat(s, red, green, blue)
    ensures var r := SketchEffect(s, width, intensity, detail);
            forall k :: 0 <= k < |s| ==> r[k] == if k % 4 == 3 then s[k] else 255
  {
    var g := GrayscaleSpec(s);
    FlatTurnsUniform(s, red, green, blue);
    forall k | 0 <= k < |s|
      ensures SketchEffect(s, width, intensity, detail)[k] == if k % 4 == 3 then s[k] else 255
    {
      UniformSketchesWhite(g, Luma(red, green, blue), width, intensity, detail, k);
    }
  }

  /** The sketch loop of `applySketchEffect`, run in place on the grey buffer. Each edge is
      read from the live buffer, yet equals the edge of the unmodified one, because only
      the current and later pixels are read and only earlier ones have been rewritten. */
  method SketchPass(data: array<Byte>, width: nat, intensity: int, detail: int)
    requires data.Length % 4 == 0 && width > 0
    modifies data
    ensures data[..] == SketchSpec(old(data[..]), width, intensity, detail)
  {
    ghost var original := data[..];
    ghost var spec := SketchSpec(original, width, intensity, detail);
    var i := 0;
    while i < data.Length
      invariant 0 <= i <= data.Length && i % 4 == 0
      invariant forall k {:trigger data[k]} :: 0 <= k < i ==> data[k] == spec[k]
      invariant forall k {:trigger data[k]} :: i <= k < data.Length ==> data[k] == original[k]
    {
      NextPixel(i, data.Length);
      ghost var current := data[..];
      assert forall j {:trigger current[j]} :: i <= j < |current| ==> current[j] == original[j];
      EdgeReadsAhead(current, original, i, width);
      SketchPixel(original, width, intensity, detail, i);
      var edgeSum := EdgeSum(data[..], i, width);
      var sketchValue := SketchValue(edgeSum, detail, intensity);
      assert spec[i] == sketchValue && spec[i + 1] == sketchValue && spec[i + 2] == sketchValue && spec[i + 3] == data[i + 3];
      data[i] := sketchValue;
      data[i + 1] := sketchValue;
      data[i + 2] := sketchValue;
      assert forall k {:trigger data[k]} :: i <= k < i + 4 ==> k == i || k == i + 1 || k == i + 2 || k == i + 3;
      i := i + 4;
    }
  }
}
