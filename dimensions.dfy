/** The bound applied to every image at load time (`getResizedDimensions`):
    an image larger than the bound in either direction is scaled down,
    keeping its aspect ratio, until it fits. */
module Dimensions {
  import opened ByteMath

  datatype Size = Size(width: nat, height: nat)

  /** The largest side an image keeps after loading. */
  const MaxDimension: nat := 800

  /** Integer division of naturals agrees with the floor of the exact quotient. */
  lemma FloorOfQuotient(a: nat, b: nat)
    requires b > 0
    ensures (a as real / b as real).Floor == a / b
  {
    var q, r := a / b, a % b;
    assert a == q * b + r && 0 <= r < b;
    assert a as real / b as real == q as real + r as real / b as real;
    assert 0.0 <= r as real / b as real < 1.0;
  }

  /** `getResizedDimensions(width, height, maxDimension)` over exact numbers: when either
      side exceeds the bound both are multiplied by min(bound / width, bound / height) and
      floored. A side of 0 makes its ratio infinite in JavaScript, so the other ratio is
      the minimum. */
  function ScriptDimensions(width: nat, height: nat, maxDimension: nat): (r: Size)
  {
    if width > maxDimension || height > maxDimension then
      var ratio :=
        if width == 0 then maxDimension as real / height as real
        else if height == 0 then maxDimension as real / width as real
        else MinReal(maxDimension as real / width as real, maxDimension as real / height as real);
      assert ratio >= 0.0;
      Size((width as real * ratio).Floor, (height as real * ratio).Floor)
    else
      Size(width, height)
  }

  /** `getResizedDimensions` computed on naturals, the form the rest of the model uses:
      an image over the bound has its longer side set to the bound and its other side
      scaled by bound / longer, rounded down. */
  function ResizedDimensions(width: nat, height: nat, maxDimension: nat): (r: Size)
  {
    if width <= maxDimension && height <= maxDimension then Size(width, height)
    else if width >= height then Size(maxDimension, ScaledDown(height, maxDimension, width))
    else Size(ScaledDown(width, maxDimension, height), maxDimension)
  }

  /** The integer definition is the script's formula over exact numbers. */
  lemma ResizedDimensionsIsScriptFormula(width: nat, height: nat, maxDimension: nat)
    ensures ResizedDimensions(width, height, maxDimension) == ScriptDimensions(width, height, maxDimension)
  {
    if width <= maxDimension && height <= maxDimension {
    } else if width >= height {
      ClosedFormWide(width, height, maxDimension);
    } else {
      ClosedFormTall(width, height, maxDimension);
    }
  }

  lemma RatioOrder(m: nat, longer: nat, shorter: nat)
    requires 0 < shorter <= longer
    ensures m as real / longer as real <= m as real / shorter as real
  {
    var a, b := m as real / longer as real, m as real / shorter as real;
    assert a * longer as real == m as real && b * shorter as real == m as real;
    assert a * shorter as real <= a * longer as real;
  }

  /** The longer side times bound / longer is the bound; any side times it is the
      exact quotient side * bound / longer. */
  lemma ScaledSide(m: nat, longer: nat, side: nat)
    requires longer > 0
    ensures (longer as real * (m as real / longer as real)).Floor == m
    ensures (side as real * (m as real / longer as real)).Floor == side * m / longer
  {
    assert side as real * (m as real / longer as real) == (side * m) as real / longer as real;
    FloorOfQuotient(side * m, longer);
  }

  /** side * bound / longer rounded down: a side scaled by the ratio bound / longer. */
  function ScaledDown(side: nat, bound: nat, longer: nat): nat
    requires longer > 0
  {
    MulMonotone(0, side, bound);
    side * bound / longer
  }

  /** For an image at least as wide as it is tall, `getResizedDimensions` scales by
      bound / width, so the width lands exactly on the bound and the height becomes
      height * bound / width, rounded down. */
  lemma ClosedFormWide(width: nat, height: nat, maxDimension: nat)
    requires width > maxDimension && width >= height
    ensures ScriptDimensions(width, height, maxDimension) == Size(maxDimension, ScaledDown(height, maxDimension, width))
  {
    var ratio := maxDimension as real / width as real;
    if height > 0 {
      RatioOrder(maxDimension, width, height);
    }
    assert ScriptDimensions(width, height, maxDimension) == Size((width as real * ratio).Floor, (height as real * ratio).Floor);
    ScaledSide(maxDimension, width, height);
  }

  /** The same for an image taller than it is wide. */
  lemma ClosedFormTall(width: nat, height: nat, maxDimension: nat)
    requires height > maxDimension && height > width
    ensures ScriptDimensions(width, height, maxDimension) == Size(ScaledDown(width, maxDimension, height), maxDimension)
  {
    var ratio := maxDimension as real / height as real;
    if width > 0 {
      RatioOrder(maxDimension, height, width);
    }
    assert ScriptDimensions(width, height, maxDimension) == Size((width as real * ratio).Floor, (height as real * ratio).Floor);
    ScaledSide(maxDimension, height, width);
  }

  /** A side no longer than the longer one, scaled by bound / longer, stays within both
      the bound and its own length. */
  lemma ScaledDownBelow(side: nat, bound: nat, longer: nat)
    requires 0 < longer && side <= longer && bound < longer
    ensures ScaledDown(side, bound, longer) <= bound && ScaledDown(side, bound, longer) <= side
  {
    var q := side * bound / longer;
    assert ScaledDown(side, bound, longer) == q;
    MulMonotone(side, longer, bound);
    DivBelow(side * bound, longer, bound);
    MulMonotone(bound, longer, side);
    DivBelow(side * bound, longer, side);
  }

  /** The longer side scaled by bound / longer is the bound. */
  lemma ScaledDownWhole(longer: nat, bound: nat)
    requires longer > 0
    ensures ScaledDown(longer, bound, longer) == bound
  {
    DivModUnique(longer * bound, longer, 0, bound);
  }

  lemma BoundedWide(width: nat, height: nat, maxDimension: nat)
    requires width > maxDimension && width >= height
    ensures var r := ResizedDimensions(width, height, maxDimension);
            && r.width == maxDimension && r.height <= maxDimension && r.height <= height
            && (height == width ==> r.height == maxDimension)
  {
    ScaledDownBelow(height, maxDimension, width);
    if height == width {
      ScaledDownWhole(width, maxDimension);
    }
  }

  lemma BoundedTall(width: nat, height: nat, maxDimension: nat)
    requires height > maxDimension && height > width
    ensures var r := ResizedDimensions(width, height, maxDimension);
            r.height == maxDimension && r.width <= maxDimension && r.width <= width
  {
    ScaledDownBelow(width, maxDimension, height);
  }

  /** Loading never enlarges an image; one that fits is kept as it is, one that does
      not ends within the bound with its longer side exactly on it. */
  lemma ResizedDimensionsBounded(width: nat, height: nat, maxDimension: nat)
    ensures var r := ResizedDimensions(width, height, maxDimension);
            && r.width <= width && r.height <= height
            && (width <= maxDimension && height <= maxDimension ==> r == Size(width, height))
            && (width > maxDimension || height > maxDimension ==>
                  && r.width <= maxDimension && r.height <= maxDimension
                  && (width >= height ==> r.width == maxDimension)
                  && (height >= width ==> r.height == maxDimension))
  {
    if width >= height && width > maxDimension {
      BoundedWide(width, height, maxDimension);
    } else if height > width && height > maxDimension {
      BoundedTall(width, height, maxDimension);
    }
  }

  /** a / b <= c whenever a <= c * b. */
  lemma DivBelow(a: nat, b: nat, c: nat)
    requires b > 0 && a <= c * b
    ensures a / b <= c
  {
    if a / b > c {
      MulMonotone(c + 1, a / b, b);
    }
  }

  /** Loading an already bounded image again changes nothing. */
  lemma ResizedDimensionsIdempotent(width: nat, height: nat, maxDimension: nat)
    ensures var r := ResizedDimensions(width, height, maxDimension);
            ResizedDimensions(r.width, r.height, maxDimension) == r
  {
    var r := ResizedDimensions(width, height, maxDimension);
    ResizedDimensionsBounded(width, height, maxDimension);
    ResizedDimensionsBounded(r.width, r.height, maxDimension);
  }

  /** A very thin image loses its short side entirely: 10000 x 1 becomes 800 x 0. */
  lemma ThinImageCollapses()
    ensures ScriptDimensions(10000, 1, MaxDimension) == Size(800, 0)
  {
    ResizedDimensionsIsScriptFormula(10000, 1, MaxDimension);
  }

  /** A 1000 x 500 photograph is loaded as 800 x 400. */
  lemma LandscapeScaledToBound()
    ensures ScriptDimensions(1000, 500, MaxDimension) == Size(800, 400)
  {
    ResizedDimensionsIsScriptFormula(1000, 500, MaxDimension);
  }
}
