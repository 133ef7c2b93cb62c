/** The colour quantisation of `applyCartoonEffect`: each colour channel is
    snapped to one of `colorLevels + 1` evenly spaced levels between 0 and
    255; alpha is left alone. */
module Cartoon {
  import opened ByteMath
  import opened Raster
  import opened Grayscale

  /** Level `k` of `levels`: k * (255 / levels), stored into a byte. */
  function Level(k: int, levels: int): Byte
    requires levels != 0
  {
    if levels > 0 then StoreQuotient(255 * k, levels) else StoreQuotient(-255 * k, -levels)
  }

  /** `Math.round(c / 255 * levels) * (255 / levels)`, stored into a byte, computed on
      integers. With 0 levels the product is 0 times Infinity, NaN, which a clamped
      byte array stores as 0. */
  function Quantize(c: Byte, levels: int): (v: Byte)
  {
    if levels == 0 then 0 else Level(RoundQuotient(c * levels, 255), levels)
  }

  /** `Math.round(c / 255 * levels)`, the first half of the script's formula, is the
      integer rounded quotient `Quantize` starts from. */
  lemma IndexIsScriptFormula(c: Byte, levels: int)
    ensures RoundQuotient(c * levels, 255) == Round(c as real / 255.0 * levels as real)
  {
    var C, L := c as real, levels as real;
    CastMul(c, levels);
    QuotientOf(C * L, 255.0, C / 255.0 * L);
    RoundQuotientIsRound(c * levels, 255);
  }

  /** `k * (255 / levels)` stored into a byte, the second half of the script's formula,
      is `Level(k, levels)`. */
  lemma LevelIsScriptFormula(k: int, levels: int)
    requires levels != 0
    ensures Level(k, levels) == ClampByte(k as real * (255.0 / levels as real))
  {
    if levels > 0 {
      LevelAbove(k, levels);
    } else {
      LevelBelow(k, levels);
    }
  }

  lemma LevelAbove(k: int, levels: int)
    requires levels > 0
    ensures StoreQuotient(255 * k, levels) == ClampByte(k as real * (255.0 / levels as real))
  {
    LevelScaling(k, levels);
    StoreQuotientIsClampByte(255 * k, levels);
  }

  lemma LevelBelow(k: int, levels: int)
    requires levels < 0
    ensures StoreQuotient(-255 * k, -levels) == ClampByte(k as real * (255.0 / levels as real))
  {
    LevelScaling(k, levels);
    StoreQuotientIsClampByte(-255 * k, -levels);
  }

  /** k * (255 / levels) as a single quotient, with the denominator negated or not. */
  lemma LevelScaling(k: int, levels: int)
    requires levels != 0
    ensures k as real * (255.0 / levels as real) == (255 * k) as real / levels as real
    ensures k as real * (255.0 / levels as real) == (-255 * k) as real / (-levels) as real
  {
    CastMul(255, k);
    CastMul(-255, k);
  }

  /** The rounded index of the level a channel snaps to. */
  function LevelIndex(c: Byte, levels: int): (k: int)
    requires levels >= 1
    ensures 0 <= k <= levels
    ensures c == 0 ==> k == 0
    ensures c == 255 ==> k == levels
  {
    MulMonotone(c, 255, levels);
    RoundQuotient(c * levels, 255)
  }

  /** For a positive number of levels every channel lands on one of the levels 0 .. levels;
      black stays black and white stays white. */
  lemma QuantizeIsLevel(c: Byte, levels: int)
    requires levels >= 1
    ensures exists k :: 0 <= k <= levels && Quantize(c, levels) == Level(k, levels)
    ensures c == 0 ==> Quantize(c, levels) == 0
    ensures c == 255 ==> Quantize(c, levels) == 255
  {
    var k := LevelIndex(c, levels);
    assert Quantize(c, levels) == Level(k, levels);
  }

  /** Level `k` quantises back to level `k`, for up to 255 levels: the stored level read
      back lies within half a step of its own index. */
  lemma LevelIsFixed(k: int, levels: int)
    requires 1 <= levels <= 255 && 0 <= k <= levels
    ensures Quantize(Level(k, levels), levels) == Level(k, levels)
  {
    var v := Level(k, levels);
    LevelNear(k, levels);
    if levels == 255 {
      LevelExact(k);
    }
    var j := RoundQuotient(v * levels, 255);
    IndexRecovered(k, levels, v * levels, j);
  }

  /** Level k of at most 255 levels, times levels, is within half a level of 255 k. */
  lemma LevelNear(k: int, levels: int)
    requires 1 <= levels <= 255 && 0 <= k <= levels
    ensures 510 * k - levels <= 2 * (Level(k, levels) * levels) <= 510 * k + levels
  {
    StoreQuotientNear(255 * k, levels);
  }

  /** With 255 levels, level k is the byte k. */
  lemma LevelExact(k: int)
    requires 0 <= k <= 255
    ensures Level(k, 255) == k
  {
    var v := Level(k, 255);
    assert 510 * k - 255 <= 510 * v <= 510 * k + 255;
  }

  /** The linear core of `LevelIsFixed`: with `m` standing for level * levels, an index
      within half a step of m / 255 is k. */
  lemma IndexRecovered(k: int, levels: int, m: int, j: int)
    requires 1 <= levels <= 255
    requires 510 * k - levels <= 2 * m <= 510 * k + levels
    requires 2 * m - 255 < 510 * j <= 2 * m + 255
    requires levels == 255 ==> m == 255 * k
    ensures j == k
  {
  }

  /** Quantising again changes nothing, for up to 255 levels. */
  lemma QuantizeIdempotent(c: Byte, levels: int)
    requires 1 <= levels <= 255
    ensures Quantize(Quantize(c, levels), levels) == Quantize(c, levels)
  {
    QuantizeIsLevel(c, levels);
    LevelIsFixed(LevelIndex(c, levels), levels);
  }

  /** Two levels give three values, 0, 128 and 255, not two: level 1 is 127.5, which the
      byte store rounds to the even 128. */
  lemma TwoLevelsGiveThreeValues(c: Byte)
    ensures Quantize(c, 2) in {0, 128, 255}
    ensures Quantize(0, 2) == 0 && Quantize(128, 2) == 128 && Quantize(255, 2) == 255
  {
    QuantizeIsLevel(c, 2);
    assert Level(0, 2) == 0 && Level(1, 2) == 128 && Level(2, 2) == 255;
    assert LevelIndex(128, 2) == 1;
  }

  /** A buffer with `f` applied to the red, green and blue of every pixel and alpha kept. */
  function MapColourChannels(s: seq<Byte>, f: Byte -> Byte): (r: seq<Byte>)
  {
    seq(|s|, k requires 0 <= k < |s| => if k % 4 == 3 then s[k] else f(s[k]))
  }

  /** The quantisation loop of `applyCartoonEffect` over a whole buffer. */
  function QuantizeSpec(s: seq<Byte>, levels: int): (r: seq<Byte>)
  {
    MapColourChannels(s, c => Quantize(c, levels))
  }

  /** One byte of the quantised buffer: colour channels are quantised, alpha kept. */
  lemma QuantizeSpecAt(s: seq<Byte>, levels: int, k: nat)
    requires k < |s|
    ensures |QuantizeSpec(s, levels)| == |s|
    ensures QuantizeSpec(s, levels)[k] == if k % 4 == 3 then s[k] else Quantize(s[k], levels)
  {
  }

  /** With up to 255 levels the quantised buffer is a fixed point of the quantisation. */
  lemma QuantizeSpecIdempotent(s: seq<Byte>, levels: int)
    requires 1 <= levels <= 255
    ensures QuantizeSpec(QuantizeSpec(s, levels), levels) == QuantizeSpec(s, levels)
  {
    var q := QuantizeSpec(s, levels);
    forall k | 0 <= k < |s|
      ensures QuantizeSpec(q, levels)[k] == q[k]
    {
      QuantizeSpecAt(s, levels, k);
      QuantizeSpecAt(q, levels, k);
      QuantizeIdempotent(s[k], levels);
    }
  }

  /** The loop shape of `applyCartoonEffect`: step through the buffer a pixel at a time
      and rewrite red, green and blue in place with the channel map `f`. */
  method MapColourChannelsInPlace(data: array<Byte>, f: Byte -> Byte)
    requires data.Length % 4 == 0
    modifies data
    ensures data[..] == MapColourChannels(old(data[..]), f)
  {
    ghost var original := data[..];
    ghost var spec := MapColourChannels(original, f);
    var i := 0;
    while i < data.Length
      invariant 0 <= i <= data.Length && i % 4 == 0
      invariant forall k {:trigger data[k]} :: 0 <= k < i ==> data[k] == spec[k]
      invariant forall k {:trigger data[k]} :: i <= k < data.Length ==> data[k] == original[k]
    {
      NextPixel(i, data.Length);
      ChannelOffsets(i);
      data[i] := f(data[i]);
      data[i + 1] := f(data[i + 1]);
      data[i + 2] := f(data[i + 2]);
      assert forall k {:trigger data[k]} :: i <= k < i + 4 ==> k == i || k == i + 1 || k == i + 2 || k == i + 3;
      i := i + 4;
    }
  }

  /** The quantisation loop of `applyCartoonEffect`, run in place. */
  method QuantizeColours(data: array<Byte>, levels: int)
    requires data.Length % 4 == 0
    modifies data
    ensures data[..] == QuantizeSpec(old(data[..]), levels)
  {
    MapColourChannelsInPlace(data, c => Quantize(c, levels));
  }
}
