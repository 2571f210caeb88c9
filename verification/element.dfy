/**
  `ParallaxScrollElmConsumer` put together: the constructor (in-view
  configuration, start and end style points, initial class and style) and the
  element's `onScroll`, which turns a frame and the element's live geometry
  into a new transform.
 */
module Element {
  import opened Options
  import opened OrderedMaps
  import opened Progress
  import opened Styles
  import opened Inview

  /** `props.parallax`. */
  datatype ParallaxProps = ParallaxProps(endPercent: Option<real>, start: Option<Points>, end: Option<Points>)

  /** The props the constructor reads. */
  datatype ElmProps = ElmProps(parallax: Option<ParallaxProps>, inview: Option<seq<InviewOption>>)

  /** The element's fields and state after construction, and after each scroll. */
  datatype Controller = Controller(
    inview: InviewConfig,
    startStyles: Points,
    endStyles: Points,
    endPercent: Option<real>,
    className: string,
    style: string)

  /** Viewports at most this wide ignore `parallax.start`. */
  const MinOuterWidth: real := 780.0

  /** `props.parallax && props.parallax.start && window.outerWidth > 780 ? props.parallax.start : {}`. */
  function SelectStart(parallax: Option<ParallaxProps>, outerWidth: real): (s: Points)
    ensures parallax == None || parallax.value.start == None || outerWidth <= MinOuterWidth ==> s == []
    ensures parallax.Some? && parallax.value.start.Some? && outerWidth > MinOuterWidth ==> s == parallax.value.start.value
  {
    if parallax.Some? && parallax.value.start.Some? && outerWidth > MinOuterWidth then parallax.value.start.value else []
  }

  /** `props.parallax && props.parallax.end ? props.parallax.end : {}`. */
  function SelectEnd(parallax: Option<ParallaxProps>): (e: Points)
    ensures parallax == None || parallax.value.end == None ==> e == []
    ensures parallax.Some? && parallax.value.end.Some? ==> e == parallax.value.end.value
  {
    if parallax.Some? && parallax.value.end.Some? then parallax.value.end.value else []
  }

  /**
    `props.parallax && props.parallax.endPercent`. The source reads it on every
    scroll; props are fixed after construction here, so it is stored once.
   */
  function EndPercentOf(parallax: Option<ParallaxProps>): Option<real> {
    if parallax.Some? then parallax.value.endPercent else None
  }

  /**
    The constructor. `outerWidth` is `window.outerWidth`; `fmt` is the
    number-to-string conversion of the template literals. After construction
    every end key has a start value, so interpolation is always defined.
   */
  function Construct(props: ElmProps, outerWidth: real, fmt: real -> string): (c: Controller)
    ensures Covers(c.startStyles, c.endStyles)
  {
    var cfg := ConfigOf(props.inview);
    var endStyles := SelectEnd(props.parallax);
    var startStyles := DefaultStart(SelectStart(props.parallax, outerWidth), Keys(endStyles));
    DefaultStartCovers(SelectStart(props.parallax, outerWidth), endStyles);
    Controller(cfg, startStyles, endStyles, EndPercentOf(props.parallax),
               InitialClassName(cfg), TransformString(startStyles, fmt))
  }

  /**
    The start point after construction: every end key is present; an end key
    whose given start value is missing or 0 reads 0; every other value is the
    one given. On a narrow viewport, or without `parallax.start`, the given
    start point is empty and all end keys start at 0.
   */
  lemma ConstructStartStyles(props: ElmProps, outerWidth: real, fmt: real -> string, k: string)
    ensures var c := Construct(props, outerWidth, fmt);
      var given := SelectStart(props.parallax, outerWidth);
      Get(c.startStyles, k) == if k in Keys(c.endStyles) && Falsy(Get(given, k)) then Some(0.0) else Get(given, k)
    ensures var c := Construct(props, outerWidth, fmt);
      (props.parallax == None || props.parallax.value.start == None || outerWidth <= MinOuterWidth) ==>
        Get(c.startStyles, k) == if k in Keys(c.endStyles) then Some(0.0) else None
    ensures var c := Construct(props, outerWidth, fmt);
      Keys(SelectStart(props.parallax, outerWidth)) <= Keys(c.startStyles)
  {
    var c := Construct(props, outerWidth, fmt);
    var given := SelectStart(props.parallax, outerWidth);
    DefaultStartGet(given, Keys(c.endStyles), k);
    DefaultStartKeysPrefix(given, Keys(c.endStyles));
  }

  /**
    The constructor's class and style: the in-view configuration is the
    defaults overridden by `props.inview`, the class is `classNameNotInView`
    when tracking is active and empty otherwise, and the style is the
    transform of the start point.
   */
  lemma ConstructClassAndStyle(props: ElmProps, outerWidth: real, fmt: real -> string)
    requires props.inview.Some? ==> WellFormed(props.inview.value)
    ensures var c := Construct(props, outerWidth, fmt);
      && c.inview == (if props.inview.Some? then Override(Defaults, props.inview.value) else Defaults)
      && c.className == (if c.inview.active then c.inview.classNameNotInView else "")
      && c.style == TransformString(c.startStyles, fmt)
  {
    ConfigOfOverrides(props.inview);
  }

  /** The progress of the element for a frame and its live geometry. */
  function Percentage(c: Controller, f: Frame, boundingTop: real, elmHeight: real): (y: real)
    requires elmHeight + f.screenY != 0.0
    ensures -1.0 <= y <= 1.0
  {
    ViewPercentage(f, boundingTop, elmHeight, c.endPercent)
  }

  /**
    The element's `onScroll`: the style becomes the transform of the
    interpolated point; nothing else changes. The height is read by the
    `clientHeight || offsetHeight || scrollHeight` chain.
   */
  function OnScroll(c: Controller, f: Frame, boundingTop: real,
                    clientHeight: real, offsetHeight: real, scrollHeight: real,
                    fmt: real -> string): (c': Controller)
    requires Covers(c.startStyles, c.endStyles)
    requires ElementHeight(clientHeight, offsetHeight, scrollHeight) + f.screenY != 0.0
    ensures c' == c.(style := c'.style)
  {
    var h := ElementHeight(clientHeight, offsetHeight, scrollHeight);
    var p := Percentage(c, f, boundingTop, h);
    c.(style := TransformString(Interpolate(c.startStyles, c.endStyles, p), fmt))
  }

  /**
    Once the element's top is `(height + screenY) / d` above the bottom edge of
    the viewport, a scroll renders the end point.
   */
  lemma OnScrollFinished(c: Controller, f: Frame, boundingTop: real,
                         clientHeight: real, offsetHeight: real, scrollHeight: real,
                         fmt: real -> string)
    requires Covers(c.startStyles, c.endStyles)
    requires ElementHeight(clientHeight, offsetHeight, scrollHeight) + f.screenY > 0.0
    requires Divisor(c.endPercent) > 0.0
    requires boundingTop <= f.screenY - (ElementHeight(clientHeight, offsetHeight, scrollHeight) + f.screenY) / Divisor(c.endPercent)
    ensures OnScroll(c, f, boundingTop, clientHeight, offsetHeight, scrollHeight, fmt).style == TransformString(c.endStyles, fmt)
  {
    var h := ElementHeight(clientHeight, offsetHeight, scrollHeight);
    ViewPercentageFinished(f, boundingTop, h, c.endPercent);
    InterpolateAtOne(c.startStyles, c.endStyles);
  }

  /**
    With the element's top on the bottom edge of the viewport, a scroll renders
    the start point again, provided the start point has exactly the end keys
    in end-key order (as after construction without `parallax.start`).
   */
  lemma OnScrollAtBottomEdge(c: Controller, f: Frame,
                             clientHeight: real, offsetHeight: real, scrollHeight: real,
                             fmt: real -> string)
    requires Keys(c.startStyles) == Keys(c.endStyles) && DistinctKeys(c.startStyles)
    requires ElementHeight(clientHeight, offsetHeight, scrollHeight) + f.screenY != 0.0
    ensures Covers(c.startStyles, c.endStyles)
    ensures OnScroll(c, f, f.screenY, clientHeight, offsetHeight, scrollHeight, fmt).style == TransformString(c.startStyles, fmt)
  {
    var h := ElementHeight(clientHeight, offsetHeight, scrollHeight);
    InterpolateAtZeroIsStart(c.startStyles, c.endStyles);
    ViewPercentageZero(f, f.screenY, h, c.endPercent);
  }

  /**
    Start `{y: 0}`, end `{y: 100}`, no `endPercent`: with a 100-pixel element at
    the top of a 100-pixel viewport the raw ratio is 0.5 and the element is
    translated by 50 pixels.
   */
  lemma ScenarioHalfway(fmt: real -> string)
    ensures var props := ElmProps(Some(ParallaxProps(None, Some([("y", 0.0)]), Some([("y", 100.0)]))), None);
      var c := Construct(props, 1024.0, fmt);
      var f := Frame(300.0, 0.0, 100.0, 1024.0);
      OnScroll(c, f, 0.0, 100.0, 0.0, 0.0, fmt).style == " translateY(" + fmt(50.0) + "px)"
  {
    var props := ElmProps(Some(ParallaxProps(None, Some([("y", 0.0)]), Some([("y", 100.0)]))), None);
    var c := Construct(props, 1024.0, fmt);
    var f := Frame(300.0, 0.0, 100.0, 1024.0);
    ConstructStartStyles(props, 1024.0, fmt, "y");
    assert Get(c.startStyles, "y") == Some(0.0);
    RawProgressRelative(f, 0.0, 100.0, 1.0);
    assert Percentage(c, f, 0.0, 100.0) == 0.5;
    InterpolateAt(c.startStyles, c.endStyles, 0.5, 0);
    var point := Interpolate(c.startStyles, c.endStyles, 0.5);
    assert point == [("y", 50.0)];
    assert TransformString(point, fmt) == Segment("y", 50.0, fmt) + TransformString([], fmt);
  }

  /** End `{scale: 2}` with no start value: the start defaults to 0, and a quarter of the way the scale is 0.5. */
  lemma ScenarioDefaultedScale(fmt: real -> string)
    ensures var props := ElmProps(Some(ParallaxProps(None, None, Some([("scale", 2.0)]))), None);
      var c := Construct(props, 1024.0, fmt);
      Get(c.startStyles, "scale") == Some(0.0)
      && Interpolate(c.startStyles, c.endStyles, 0.25) == [("scale", 0.5)]
  {
    var props := ElmProps(Some(ParallaxProps(None, None, Some([("scale", 2.0)]))), None);
    var c := Construct(props, 1024.0, fmt);
    ConstructStartStyles(props, 1024.0, fmt, "scale");
    InterpolateAt(c.startStyles, c.endStyles, 0.25, 0);
  }

  /**
    A key of the start point that the end point lacks is rendered by the
    constructor, but `onScroll` iterates over the end keys only, so the first
    scroll drops it: start `{x: 10}` with end `{}` renders ` translateX(10px)`
    and then `''`.
   */
  lemma StartOnlyKeyDroppedOnScroll(fmt: real -> string)
    ensures var props := ElmProps(Some(ParallaxProps(None, Some([("x", 10.0)]), Some([]))), None);
      var c := Construct(props, 1024.0, fmt);
      && c.style == " translateX(" + fmt(10.0) + "px)"
      && OnScroll(c, Frame(0.0, 0.0, 100.0, 1024.0), 0.0, 100.0, 0.0, 0.0, fmt).style == ""
  {
    var props := ElmProps(Some(ParallaxProps(None, Some([("x", 10.0)]), Some([]))), None);
    var c := Construct(props, 1024.0, fmt);
    assert c.startStyles == [("x", 10.0)];
    assert TransformString(c.startStyles, fmt) == Segment("x", 10.0, fmt) + TransformString([], fmt);
  }
}
