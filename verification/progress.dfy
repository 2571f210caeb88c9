/**
  Scroll geometry to progress: `getViewPercentage` of `ParallaxScrollElmConsumer`
  and the frame the container hands to every element. Browser reads
  (`getBoundingClientRect().top`, `clientHeight`, `pageYOffset`, ...) arrive as
  parameters. Only the vertical axis is computed; the horizontal one is
  commented out in the component.
 */
module Progress {
  import opened Options

  /** One scroll snapshot: scroll offsets and the viewport's inner size. */
  datatype Frame = Frame(wrapperPosY: real, wrapperPosX: real, screenY: real, screenX: real)

  /**
    The numeric fallback chain `a || b || c`: the first non-zero operand,
    else the last one (`NaN`, the other falsy number, is not modelled).
   */
  function FirstNonZero(a: real, b: real, c: real): (r: real)
    ensures r == a || r == b || r == c
    ensures r != 0.0 <==> a != 0.0 || b != 0.0 || c != 0.0
    ensures a != 0.0 ==> r == a
    ensures a == 0.0 && b != 0.0 ==> r == b
    ensures a == 0.0 && b == 0.0 ==> r == c
  {
    if a != 0.0 then a else if b != 0.0 then b else c
  }

  /** The element's height: `clientHeight || offsetHeight || scrollHeight`. */
  function ElementHeight(clientHeight: real, offsetHeight: real, scrollHeight: real): (h: real)
    ensures h == clientHeight || h == offsetHeight || h == scrollHeight
    ensures clientHeight != 0.0 ==> h == clientHeight
    ensures clientHeight == 0.0 && offsetHeight != 0.0 ==> h == offsetHeight
    ensures clientHeight == 0.0 && offsetHeight == 0.0 ==> h == scrollHeight
    ensures h == 0.0 <==> clientHeight == 0.0 && offsetHeight == 0.0 && scrollHeight == 0.0
  {
    FirstNonZero(clientHeight, offsetHeight, scrollHeight)
  }

  /** The divisor `d`: `endPercent` when it is truthy, otherwise 1. */
  function Divisor(endPercent: Option<real>): (d: real)
    ensures d != 0.0
    ensures endPercent == None ==> d == 1.0
    ensures endPercent == Some(0.0) ==> d == 1.0
    ensures endPercent.Some? && endPercent.value != 0.0 ==> d == endPercent.value
  {
    if endPercent.Some? && endPercent.value != 0.0 then endPercent.value else 1.0
  }

  /** The unclamped ratio, computed as the component writes it (through the document top of the element). */
  function RawProgress(f: Frame, boundingTop: real, elmHeight: real, d: real): real
    requires d != 0.0 && elmHeight + f.screenY != 0.0
  {
    var elmTop := f.wrapperPosY + boundingTop;
    (f.wrapperPosY - elmTop + f.screenY) / ((elmHeight + f.screenY) / d)
  }

  function Min(a: real, b: real): real { if a <= b then a else b }

  function Max(a: real, b: real): real { if a >= b then a else b }

  /** `Math.min(1, Math.max(-1, v))`. */
  function Clamp(v: real): (r: real)
    ensures -1.0 <= r <= 1.0
    ensures -1.0 <= v <= 1.0 ==> r == v
    ensures v >= 1.0 ==> r == 1.0
    ensures v <= -1.0 ==> r == -1.0
  {
    Min(1.0, Max(-1.0, v))
  }

  /**
    The vertical progress of an element: the raw ratio clamped to [-1, 1].
    The source would produce `NaN` or an infinity when `elmHeight + screenY`
    is zero; the model requires it to be non-zero instead.
   */
  function ViewPercentage(f: Frame, boundingTop: real, elmHeight: real, endPercent: Option<real>): (y: real)
    requires elmHeight + f.screenY != 0.0
    ensures -1.0 <= y <= 1.0
    ensures var raw := RawProgress(f, boundingTop, elmHeight, Divisor(endPercent));
      -1.0 <= raw <= 1.0 ==> y == raw
    ensures var raw := RawProgress(f, boundingTop, elmHeight, Divisor(endPercent));
      raw >= 1.0 ==> y == 1.0
    ensures var raw := RawProgress(f, boundingTop, elmHeight, Divisor(endPercent));
      raw <= -1.0 ==> y == -1.0
  {
    Clamp(RawProgress(f, boundingTop, elmHeight, Divisor(endPercent)))
  }

  /** Dividing by a quotient multiplies by its divisor. */
  lemma DivByQuotient(a: real, b: real, d: real)
    requires b != 0.0 && d != 0.0
    ensures a / (b / d) == a * d / b
  {
    assert (b / d) * d == b;
    assert a / (b / d) * (b / d) == a;
    assert a / (b / d) * b == a * d;
  }

  /**
    The scroll offset cancels out of the raw ratio: progress depends only on
    the element's top relative to the viewport, its height, the viewport
    height and the divisor.
   */
  lemma RawProgressRelative(f: Frame, boundingTop: real, elmHeight: real, d: real)
    requires d != 0.0 && elmHeight + f.screenY != 0.0
    ensures RawProgress(f, boundingTop, elmHeight, d)
         == (f.screenY - boundingTop) * d / (elmHeight + f.screenY)
  {
    var elmTop := f.wrapperPosY + boundingTop;
    assert f.wrapperPosY - elmTop + f.screenY == f.screenY - boundingTop;
    DivByQuotient(f.screenY - boundingTop, elmHeight + f.screenY, d);
  }

  /** Two frames that differ only in their scroll offsets give the same progress. */
  lemma ViewPercentageIgnoresScrollOffset(f: Frame, g: Frame, boundingTop: real, elmHeight: real, endPercent: Option<real>)
    requires f.screenY == g.screenY && elmHeight + f.screenY != 0.0
    ensures ViewPercentage(f, boundingTop, elmHeight, endPercent)
         == ViewPercentage(g, boundingTop, elmHeight, endPercent)
  {
    RawProgressRelative(f, boundingTop, elmHeight, Divisor(endPercent));
    RawProgressRelative(g, boundingTop, elmHeight, Divisor(endPercent));
  }

  /** With no `endPercent`, progress is the clamped ratio `(screenY - top) / (height + screenY)`. */
  lemma ViewPercentageDefault(f: Frame, boundingTop: real, elmHeight: real)
    requires elmHeight + f.screenY != 0.0
    ensures ViewPercentage(f, boundingTop, elmHeight, None)
         == Clamp((f.screenY - boundingTop) / (elmHeight + f.screenY))
  {
    RawProgressRelative(f, boundingTop, elmHeight, 1.0);
  }

  /** Progress is zero exactly when the element's top sits on the bottom edge of the viewport. */
  lemma ViewPercentageZero(f: Frame, boundingTop: real, elmHeight: real, endPercent: Option<real>)
    requires elmHeight + f.screenY != 0.0
    ensures ViewPercentage(f, boundingTop, elmHeight, endPercent) == 0.0 <==> boundingTop == f.screenY
  {
    var d := Divisor(endPercent);
    RawProgressRelative(f, boundingTop, elmHeight, d);
    var raw := RawProgress(f, boundingTop, elmHeight, d);
    if raw == 0.0 {
      assert (f.screenY - boundingTop) * d == raw * (elmHeight + f.screenY);
    }
  }

  /**
    For a positive divisor and a positive denominator, an element higher on
    the screen (smaller bounding top) is never less advanced.
   */
  lemma ViewPercentageMonotone(f: Frame, top1: real, top2: real, elmHeight: real, endPercent: Option<real>)
    requires elmHeight + f.screenY > 0.0 && Divisor(endPercent) > 0.0
    requires top1 <= top2
    ensures ViewPercentage(f, top1, elmHeight, endPercent) >= ViewPercentage(f, top2, elmHeight, endPercent)
  {
    var d := Divisor(endPercent);
    var den := elmHeight + f.screenY;
    RawProgressRelative(f, top1, elmHeight, d);
    RawProgressRelative(f, top2, elmHeight, d);
    var k := d / den;
    assert k > 0.0;
    assert (f.screenY - top1) * d / den == (f.screenY - top1) * k;
    assert (f.screenY - top2) * d / den == (f.screenY - top2) * k;
    assert (f.screenY - top1) * k >= (f.screenY - top2) * k;
    assert RawProgress(f, top1, elmHeight, d) >= RawProgress(f, top2, elmHeight, d);
  }

  /**
    For a positive divisor and denominator, the effect is finished (progress 1)
    once the top has moved `(height + screenY) / d` above the bottom edge of
    the viewport.
   */
  lemma ViewPercentageFinished(f: Frame, boundingTop: real, elmHeight: real, endPercent: Option<real>)
    requires elmHeight + f.screenY > 0.0 && Divisor(endPercent) > 0.0
    requires boundingTop <= f.screenY - (elmHeight + f.screenY) / Divisor(endPercent)
    ensures ViewPercentage(f, boundingTop, elmHeight, endPercent) == 1.0
  {
    var d := Divisor(endPercent);
    var den := elmHeight + f.screenY;
    var x := f.screenY - boundingTop;
    assert x >= den / d;
    RawProgressRelative(f, boundingTop, elmHeight, d);
    ScaledOffset(x, den, d);
    assert RawProgress(f, boundingTop, elmHeight, d) >= 1.0;
  }

  /**
    For a positive divisor and denominator, the effect has not begun
    (progress -1) while the top is `(height + screenY) / d` or more below the
    bottom edge of the viewport.
   */
  lemma ViewPercentageNotBegun(f: Frame, boundingTop: real, elmHeight: real, endPercent: Option<real>)
    requires elmHeight + f.screenY > 0.0 && Divisor(endPercent) > 0.0
    requires boundingTop >= f.screenY + (elmHeight + f.screenY) / Divisor(endPercent)
    ensures ViewPercentage(f, boundingTop, elmHeight, endPercent) == -1.0
  {
    var d := Divisor(endPercent);
    var den := elmHeight + f.screenY;
    var x := f.screenY - boundingTop;
    assert x <= -(den / d);
    RawProgressRelative(f, boundingTop, elmHeight, d);
    ScaledOffset(x, den, d);
    assert RawProgress(f, boundingTop, elmHeight, d) <= -1.0;
  }

  /** An offset of at least `den / d` in either direction scales to at least 1 in that direction. */
  lemma ScaledOffset(x: real, den: real, d: real)
    requires den > 0.0 && d > 0.0
    ensures x >= den / d ==> x * d / den >= 1.0
    ensures x <= -(den / d) ==> x * d / den <= -1.0
  {
    var span := den / d;
    assert span * d == den;
    if x >= span {
      assert x * d >= span * d;
    }
    if x <= -span {
      assert x * d <= -span * d;
    }
  }
}
