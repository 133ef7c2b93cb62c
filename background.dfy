/** The colour keying of `applyBackgroundRemoval`: a pixel close to the key
    colour becomes transparent, one a little further away is given a partial
    alpha that ramps up across the feather band, and the rest keep their
    alpha. Red, green and blue are never changed. */
module Background {
  import opened ByteMath
  import opened Colour
  import opened Raster
  import opened Grayscale

  /** The distance the script measures: the summed channel differences to the key. */
  function ColourDistance(r: Byte, g: Byte, b: Byte, key: Rgb): (diff: nat)
    ensures diff <= 765
    ensures diff == 0 <==> Rgb(r, g, b) == key
  {
    Abs(r - key.r) + Abs(g - key.g) + Abs(b - key.b)
  }

  /** `Math.round((diff - threshold * 3) / (feather * 3) * 255)` inside the feather band,
      computed on integers. The band is empty unless feather is positive, and within it
      the ratio lies in [0, 1), so the value is a byte and storing it changes nothing. */
  function FeatherAlpha(diff: nat, threshold: int, feather: int): (a: Byte)
    requires 3 * threshold <= diff < 3 * (threshold + feather)
    ensures diff == 3 * threshold ==> a == 0
  {
    var n, d := 255 * (diff - 3 * threshold), 3 * feather;
    RampBounds(n, d);
    RoundQuotient(n, d)
  }

  /** A rounded quotient n / d with 0 <= n < 255 d lies in 0 .. 255. */
  lemma RampBounds(n: int, d: int)
    requires 0 <= n < 255 * d
    ensures 0 <= RoundQuotient(n, d) <= 255
    ensures n == 0 ==> RoundQuotient(n, d) == 0
  {
    var r := RoundQuotient(n, d);
    OutsideByteScaled(r, d);
    if n == 0 {
      RoundQuotientExact(0, d);
    }
  }

  /** A value outside 0 .. 255, scaled by a positive 2 d, lands at least 2 d outside
      0 .. 510 d. */
  lemma OutsideByteScaled(r: int, d: nat)
    ensures r < 0 ==> 2 * d * r <= -2 * d
    ensures r > 255 ==> 2 * d * r >= 512 * d
  {
    if r < 0 {
      MulMonotone(r, -1, 2 * d);
    } else if r > 255 {
      MulMonotone(256, r, 2 * d);
    }
  }

  /** The integer definition is the script's formula over exact numbers, and a clamped
      byte array stores it unchanged. */
  lemma FeatherAlphaIsScriptFormula(diff: nat, threshold: int, feather: int)
    requires 3 * threshold <= diff < 3 * (threshold + feather)
    ensures var x := Round((diff - threshold * 3) as real / (feather * 3) as real * 255.0);
            FeatherAlpha(diff, threshold, feather) == x && ClampByte(x as real) == x
  {
    var m, d := diff - 3 * threshold, 3 * feather;
    var M, D := m as real, d as real;
    CastMul(255, m);
    QuotientOf(255.0 * M, D, M / D * 255.0);
    RoundQuotientIsRound(255 * m, d);
    var x := FeatherAlpha(diff, threshold, feather);
    assert (x as real).Floor == x;
  }

  /** The alpha a pixel at distance `diff` from the key ends with, given its alpha `a`. */
  function KeyedAlpha(diff: nat, a: Byte, threshold: int, feather: int): (r: Byte)
  {
    if diff < threshold * 3 then 0
    else if diff < (threshold + feather) * 3 then FeatherAlpha(diff, threshold, feather)
    else a
  }

  /** The cut, the band and the rest: a pixel is removed below 3 * threshold, ramps
      from 0 up to at most 255 across the band, and is left alone beyond it. */
  lemma KeyedAlphaCases(diff: nat, a: Byte, threshold: int, feather: int)
    ensures diff < 3 * threshold ==> KeyedAlpha(diff, a, threshold, feather) == 0
    ensures diff >= 3 * threshold && diff >= 3 * (threshold + feather) ==> KeyedAlpha(diff, a, threshold, feather) == a
    ensures diff == 3 * threshold && feather > 0 ==> KeyedAlpha(diff, a, threshold, feather) == 0
    ensures feather <= 0 ==> KeyedAlpha(diff, a, threshold, feather) == if diff < 3 * threshold then 0 else a
  {
  }

  /** For an opaque pixel the alpha never falls as the distance to the key grows. */
  lemma KeyedAlphaMonotone(d1: nat, d2: nat, threshold: int, feather: int)
    requires d1 <= d2
    ensures KeyedAlpha(d1, 255, threshold, feather) <= KeyedAlpha(d2, 255, threshold, feather)
  {
    if 3 * threshold <= d1 && d2 < 3 * (threshold + feather) {
      RoundQuotientMonotone(255 * (d1 - 3 * threshold), 255 * (d2 - 3 * threshold), 3 * feather);
    }
  }

  /** The buffer the keying loop leaves behind: colour bytes as they were, each alpha
      byte keyed on its own pixel's colour. */
  function RemoveBackgroundSpec(s: seq<Byte>, key: Rgb, threshold: int, feather: int): (r: seq<Byte>)
    requires |s| % 4 == 0
  {
    seq(|s|, k requires 0 <= k < |s| =>
      if k % 4 == 3 then KeyedAlpha(ColourDistance(s[k - 3], s[k - 2], s[k - 1], key), s[k], threshold, feather)
      else s[k])
  }

  /** One pixel of the keyed buffer; `k` is the index of its red byte. */
  lemma RemoveBackgroundPixel(s: seq<Byte>, key: Rgb, threshold: int, feather: int, k: nat)
    requires |s| % 4 == 0 && k % 4 == 0 && k < |s|
    ensures k + 3 < |s|
    ensures var r := RemoveBackgroundSpec(s, key, threshold, feather);
            && |r| == |s|
            && r[k] == s[k] && r[k + 1] == s[k + 1] && r[k + 2] == s[k + 2]
            && r[k + 3] == KeyedAlpha(ColourDistance(s[k], s[k + 1], s[k + 2], key), s[k + 3], threshold, feather)
  {
    NextPixel(k, |s|);
    ChannelOffsets(k);
  }

  /** Red, green and blue are kept; only alpha bytes can change. */
  lemma ColoursKept(s: seq<Byte>, key: Rgb, threshold: int, feather: int, k: nat)
    requires |s| % 4 == 0 && k < |s| && k % 4 != 3
    ensures RemoveBackgroundSpec(s, key, threshold, feather)[k] == s[k]
  {
  }

  /** With a positive threshold a pixel of exactly the key colour is removed. */
  lemma KeyColourRemoved(s: seq<Byte>, key: Rgb, threshold: int, feather: int, k: nat)
    requires |s| % 4 == 0 && k % 4 == 0 && k < |s| && threshold > 0
    requires Rgb(s[k], s[k + 1], s[k + 2]) == key
    ensures RemoveBackgroundSpec(s, key, threshold, feather)[k + 3] == 0
  {
    RemoveBackgroundPixel(s, key, threshold, feather, k);
  }

  /** With neither a threshold nor a band (both at most 0) nothing is removed. */
  lemma NoThresholdKeepsImage(s: seq<Byte>, key: Rgb, threshold: int, feather: int)
    requires |s| % 4 == 0 && threshold <= 0 && threshold + feather <= 0
    ensures RemoveBackgroundSpec(s, key, threshold, feather) == s
  {
    var r := RemoveBackgroundSpec(s, key, threshold, feather);
    forall k | 0 <= k < |s|
      ensures r[k] == s[k]
    {
    }
  }

  /** Keying twice is keying once: the colours the alpha depends on are never changed,
      and an alpha left alone the first time is left alone again. */
  lemma RemoveBackgroundIdempotent(s: seq<Byte>, key: Rgb, threshold: int, feather: int)
    requires |s| % 4 == 0
    ensures RemoveBackgroundSpec(RemoveBackgroundSpec(s, key, threshold, feather), key, threshold, feather)
            == RemoveBackgroundSpec(s, key, threshold, feather)
  {
    var r := RemoveBackgroundSpec(s, key, threshold, feather);
    forall k | 0 <= k < |s|
      ensures RemoveBackgroundSpec(r, key, threshold, feather)[k] == r[k]
    {
      KeyedByteIsFixed(s, key, threshold, feather, k);
    }
  }

  /** One byte of the keyed buffer survives a second keying. */
  lemma KeyedByteIsFixed(s: seq<Byte>, key: Rgb, threshold: int, feather: int, k: nat)
    requires |s| % 4 == 0 && k < |s|
    ensures |RemoveBackgroundSpec(s, key, threshold, feather)| == |s|
    ensures var r := RemoveBackgroundSpec(s, key, threshold, feather);
            RemoveBackgroundSpec(r, key, threshold, feather)[k] == r[k]
  {
    var r := RemoveBackgroundSpec(s, key, threshold, feather);
    var p := PixelOf(k);
    RemoveBackgroundPixel(s, key, threshold, feather, p);
    RemoveBackgroundPixel(r, key, threshold, feather, p);
  }

  /** An empty colour picker falls back to '#ffffff', which is also what `hexToRgb`
      answers for the empty string: either way the key is white. */
  lemma EmptyPickerKeysWhite()
    ensures HexToRgb("") == White && HexToRgb("#ffffff") == White
  {
    HexToRgbMatchesPattern("");
    assert HexByte('f', 'f') == 255;
  }

  /** The key colour the script uses for the picker's value. */
  function PickerKey(value: string): (key: Rgb)
    ensures key == HexToRgb(value)
  {
    EmptyPickerKeysWhite();
    HexToRgb(if value == "" then "#ffffff" else value)
  }

  /** The loop of `applyBackgroundRemoval`, rewriting alpha bytes in place. */
  method RemoveBackground(data: array<Byte>, key: Rgb, threshold: int, feather: int)
    requires data.Length % 4 == 0
    modifies data
    ensures data[..] == RemoveBackgroundSpec(old(data[..]), key, threshold, feather)
  {
    ghost var original := data[..];
    ghost var spec := RemoveBackgroundSpec(original, key, threshold, feather);
    var i := 0;
    while i < data.Length
      invariant 0 <= i <= data.Length && i % 4 == 0
      invariant forall k {:trigger data[k]} :: 0 <= k < i ==> data[k] == spec[k]
      invariant forall k {:trigger data[k]} :: i <= k < data.Length ==> data[k] == original[k]
    {
      NextPixel(i, data.Length);
      RemoveBackgroundPixel(original, key, threshold, feather, i);
      assert data[i] == original[i] && data[i + 1] == original[i + 1] && data[i + 2] == original[i + 2];
      var diff := ColourDistance(data[i], data[i + 1], data[i + 2], key);
      if diff < threshold * 3 {
        data[i + 3] := 0;
      } else if diff < (threshold + feather) * 3 {
        data[i + 3] := FeatherAlpha(diff, threshold, feather);
      }
      assert forall k {:trigger data[k]} :: i <= k < i + 4 ==> k == i || k == i + 1 || k == i + 2 || k == i + 3;
      i := i + 4;
    }
  }
}
