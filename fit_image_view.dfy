/**
  The size computation of FitImageView.onMeasure when the view holds a
  drawable: the image is scaled, keeping its aspect ratio, until it reaches
  either the width or the height the parent allows, and the view takes that
  size. `OnMeasure` follows the Java code on 32-bit ints; `AspectFit` is the
  same computation in exact arithmetic, the size the code means to produce.
*/
module FitImageView {
  import opened JavaInt

  /**
    What onMeasure hands to setMeasuredDimension, or the ArithmeticException
    that an int division by zero throws.
  */
  datatype Measurement = Measured(width: int32, height: int32) | DivisionByZero

  /** The branch test of onMeasure: relative to its height the image is at least as wide as the box. */
  predicate FitsWidth(maxWidth: int32, maxHeight: int32, imgWidth: int32, imgHeight: int32)
  {
    Mul(imgWidth, maxHeight) >= Mul(maxWidth, imgHeight)
  }

  /**
    onMeasure with a drawable; `maxWidth` and `maxHeight` are the sizes of the
    two measure specs, `imgWidth` and `imgHeight` the drawable's intrinsic
    size (Android reports -1 for a drawable without one).
  */
  function OnMeasure(maxWidth: int32, maxHeight: int32, imgWidth: int32, imgHeight: int32): (r: Measurement)
    ensures r.DivisionByZero? <==>
              (if FitsWidth(maxWidth, maxHeight, imgWidth, imgHeight) then imgWidth == 0 else imgHeight == 0)
    ensures imgWidth == 0 && imgHeight == 0 ==> r.DivisionByZero?
    ensures imgWidth != 0 && imgHeight != 0 ==> r.Measured?
  {
    if FitsWidth(maxWidth, maxHeight, imgWidth, imgHeight) then
      if imgWidth == 0 then DivisionByZero
      else Measured(maxWidth, Div(Mul(imgHeight, maxWidth), imgWidth))
    else
      if imgHeight == 0 then DivisionByZero
      else Measured(Div(Mul(imgWidth, maxHeight), imgHeight), maxHeight)
  }

  /** The intended size: the box's width or height is reached, the other side is the proportional value rounded down. */
  function AspectFit(maxWidth: nat, maxHeight: nat, imgWidth: nat, imgHeight: nat): (r: (nat, nat))
    requires imgWidth > 0 && imgHeight > 0
  {
    if imgWidth * maxHeight >= maxWidth * imgHeight then (maxWidth, imgHeight * maxWidth / imgWidth)
    else (imgWidth * maxHeight / imgHeight, maxHeight)
  }

  /** The scaled image fits in the box. */
  lemma AspectFitWithinBox(maxWidth: nat, maxHeight: nat, imgWidth: nat, imgHeight: nat)
    requires imgWidth > 0 && imgHeight > 0
    ensures AspectFit(maxWidth, maxHeight, imgWidth, imgHeight).0 <= maxWidth
    ensures AspectFit(maxWidth, maxHeight, imgWidth, imgHeight).1 <= maxHeight
  {
    if imgWidth * maxHeight >= maxWidth * imgHeight {
      QuotientAtMost(imgHeight * maxWidth, imgWidth, maxHeight);
    } else {
      QuotientAtMost(imgWidth * maxHeight, imgHeight, maxWidth);
    }
  }

  /** `a / b <= c` whenever `a <= b * c`. */
  lemma QuotientAtMost(a: nat, b: nat, c: nat)
    requires b > 0 && a <= b * c
    ensures a / b <= c
  {
  }

  /**
    The scaled image keeps the drawable's aspect ratio up to rounding: one
    side equals the box's side, and the other is the largest integer not
    above the exact proportional value.
  */
  lemma AspectFitKeepsRatio(maxWidth: nat, maxHeight: nat, imgWidth: nat, imgHeight: nat)
    requires imgWidth > 0 && imgHeight > 0
    ensures var (w, h) := AspectFit(maxWidth, maxHeight, imgWidth, imgHeight);
      if imgWidth * maxHeight >= maxWidth * imgHeight then
        w == maxWidth && h * imgWidth <= imgHeight * maxWidth < (h + 1) * imgWidth
      else
        h == maxHeight && w * imgHeight <= imgWidth * maxHeight < (w + 1) * imgHeight
  {
    if imgWidth * maxHeight >= maxWidth * imgHeight {
      FloorQuotient(imgHeight * maxWidth, imgWidth);
    } else {
      FloorQuotient(imgWidth * maxHeight, imgHeight);
    }
  }

  /** `a / b` is the floor of the exact quotient. */
  lemma FloorQuotient(a: nat, b: nat)
    requires b > 0
    ensures (a / b) * b <= a < (a / b + 1) * b
  {
    assert a == (a / b) * b + a % b;
  }

  /**
    When the products onMeasure forms stay within the int range, the Java
    computation yields exactly the intended size.
  */
  lemma OnMeasureIsAspectFit(maxWidth: int32, maxHeight: int32, imgWidth: int32, imgHeight: int32)
    requires imgWidth > 0 && imgHeight > 0 && maxWidth >= 0 && maxHeight >= 0
    requires imgWidth as int * maxHeight as int <= INT_MAX
    requires maxWidth as int * imgHeight as int <= INT_MAX
    ensures var (w, h) := AspectFit(maxWidth as nat, maxHeight as nat, imgWidth as nat, imgHeight as nat);
      w <= maxWidth as int && h <= maxHeight as int &&
      OnMeasure(maxWidth, maxHeight, imgWidth, imgHeight) == Measured(w as int32, h as int32)
  {
    var mw, mh, iw, ih := maxWidth as nat, maxHeight as nat, imgWidth as nat, imgHeight as nat;
    AspectFitWithinBox(mw, mh, iw, ih);
    var wide, tall := iw * mh, mw * ih;
    assert ih * mw == tall;
    assert Mul(imgWidth, maxHeight) as int == wide;
    assert Mul(maxWidth, imgHeight) as int == tall;
    if wide >= tall {
      var h := Div(Mul(imgHeight, maxWidth), imgWidth);
      assert Mul(imgHeight, maxWidth) as int == tall;
      assert h as int == tall / iw;
      assert OnMeasure(maxWidth, maxHeight, imgWidth, imgHeight) == Measured(maxWidth, h);
    } else {
      var w := Div(Mul(imgWidth, maxHeight), imgHeight);
      assert w as int == wide / ih;
      assert OnMeasure(maxWidth, maxHeight, imgWidth, imgHeight) == Measured(w, maxHeight);
    }
  }

  /**
    Without that bound the branch test can wrap around: a 65536 x 1 drawable
    in a 1 x 65536 box makes `imgWidth * maxHeight` wrap to 0, so onMeasure
    takes the height branch and measures 0 x 65536 instead of 1 x 0.
  */
  lemma OnMeasureOverflowExample()
    ensures OnMeasure(1, 65536, 65536, 1) == Measured(0, 65536)
    ensures AspectFit(1, 65536, 65536, 1) == (1, 0)
  {
    assert Mul(65536, 65536) == 0;
  }
}
