/**
  Style points of `ParallaxScrollElmConsumer`: defaulting the start point for
  every end key, interpolating between start and end, and composing the CSS
  transform string (`getStyleObj`). A style point is an object from axis name
  to number, modelled as an insertion-ordered map.
 */
module Styles {
  import opened Options
  import opened OrderedMaps

  type Points = OMap<string, real>

  /** `!points[key]`: the key is missing or holds 0 (`NaN` is not modelled). */
  predicate Falsy(v: Option<real>) {
    v == None || v == Some(0.0)
  }

  /** One step of the defaulting loop: a falsy start value becomes 0. */
  function DefaultKey(start: Points, key: string): Points {
    if Falsy(Get(start, key)) then Set(start, key, 0.0) else start
  }

  /**
    `Object.keys(endStyles).map(key => { if (!startStyles[key]) startStyles[key] = 0; })`,
    folded over the end keys in order.
   */
  function DefaultStart(start: Points, endKeys: seq<string>): (r: Points)
    decreases |endKeys|
  {
    if endKeys == [] then start else DefaultStart(DefaultKey(start, endKeys[0]), endKeys[1..])
  }

  /**
    After defaulting, every end key has a start value; a falsy start value of
    an end key reads 0, and every other key reads as before.
   */
  lemma {:induction false} DefaultStartGet(start: Points, endKeys: seq<string>, k: string)
    ensures Get(DefaultStart(start, endKeys), k)
         == if k in endKeys && Falsy(Get(start, k)) then Some(0.0) else Get(start, k)
    decreases |endKeys|
  {
    if endKeys != [] {
      var s1 := DefaultKey(start, endKeys[0]);
      DefaultStartGet(s1, endKeys[1..], k);
      SetGet(start, endKeys[0], 0.0, k);
      assert endKeys == [endKeys[0]] + endKeys[1..];
    }
  }

  /** Defaulting only appends keys: the original keys keep their order at the front. */
  lemma {:induction false} DefaultStartKeysPrefix(start: Points, endKeys: seq<string>)
    ensures Keys(start) <= Keys(DefaultStart(start, endKeys))
    decreases |endKeys|
  {
    if endKeys != [] {
      var s1 := DefaultKey(start, endKeys[0]);
      DefaultStartKeysPrefix(s1, endKeys[1..]);
      SetKeys(start, endKeys[0], 0.0);
    }
  }

  /** Defaulting keeps keys distinct. */
  lemma {:induction false} DefaultStartDistinct(start: Points, endKeys: seq<string>)
    requires DistinctKeys(start)
    ensures DistinctKeys(DefaultStart(start, endKeys))
    decreases |endKeys|
  {
    if endKeys != [] {
      SetDistinct(start, endKeys[0], 0.0);
      DefaultStartDistinct(DefaultKey(start, endKeys[0]), endKeys[1..]);
    }
  }

  /** Every end key has a start value: the precondition of interpolation. */
  predicate Covers(start: Points, end: Points) {
    forall k :: k in Keys(end) ==> HasKey(start, k)
  }

  /** After defaulting over the end keys, the start point covers the end point. */
  lemma DefaultStartCovers(start: Points, end: Points)
    ensures Covers(DefaultStart(start, Keys(end)), end)
  {
    forall k | k in Keys(end) ensures HasKey(DefaultStart(start, Keys(end)), k) {
      DefaultStartGet(start, Keys(end), k);
      GetHasKey(DefaultStart(start, Keys(end)), k);
    }
  }

  /** Linear interpolation `s + (e - s) * p`. */
  function Lerp(s: real, e: real, p: real): (v: real)
    ensures p == 0.0 ==> v == s
    ensures p == 1.0 ==> v == e
    ensures 0.0 <= p <= 1.0 && s <= e ==> s <= v <= e
    ensures 0.0 <= p <= 1.0 && e <= s ==> e <= v <= s
  {
    var dp := (e - s) * p;
    ScaleBetween(e - s, p, dp);
    s + dp
  }

  /** A fraction `p` of `d`: 0 at 0, `d` at 1, and between 0 and `d` in between. */
  lemma ScaleBetween(d: real, p: real, dp: real)
    requires dp == d * p
    ensures p == 0.0 ==> dp == 0.0
    ensures p == 1.0 ==> dp == d
    ensures 0.0 <= p <= 1.0 && d >= 0.0 ==> 0.0 <= dp <= d
    ensures 0.0 <= p <= 1.0 && d <= 0.0 ==> d <= dp <= 0.0
  {
    if 0.0 <= p <= 1.0 {
      var q := 1.0 - p;
      assert d - dp == d * q;
      if d >= 0.0 {
        assert d * q >= 0.0;
        assert d * p >= 0.0;
      } else {
        assert d * q <= 0.0;
        assert d * p <= 0.0;
      }
    }
  }

  /**
    The in-progress style of `onScroll`: for each end key, in end-key order,
    the interpolated value. Keys of an object are distinct, so writing them
    one by one into an empty object gives this list.
   */
  function Interpolate(start: Points, end: Points, p: real): (r: Points)
    requires Covers(start, end)
    ensures Keys(r) == Keys(end)
  {
    if end == [] then []
    else
      assert Keys(end) == [end[0].0] + Keys(end[1..]);
      GetHasKey(start, end[0].0);
      var s := Get(start, end[0].0).value;
      [(end[0].0, Lerp(s, end[0].1, p))] + Interpolate(start, end[1..], p)
  }

  /** Each interpolated entry is the interpolation of its own start and end values. */
  lemma {:induction false} InterpolateAt(start: Points, end: Points, p: real, i: nat)
    requires Covers(start, end) && i < |end|
    ensures Interpolate(start, end, p)[i].0 == end[i].0
    ensures HasKey(start, end[i].0)
    ensures Get(start, end[i].0).Some?
    ensures Interpolate(start, end, p)[i].1 == Lerp(Get(start, end[i].0).GetOr(0.0), end[i].1, p)
  {
    assert Keys(end) == [end[0].0] + Keys(end[1..]);
    if i == 0 {
      GetHasKey(start, end[0].0);
    } else {
      InterpolateAt(start, end[1..], p, i - 1);
    }
  }

  /** At progress 1 the in-progress style is the end point itself. */
  lemma InterpolateAtOne(start: Points, end: Points)
    requires Covers(start, end)
    ensures Interpolate(start, end, 1.0) == end
  {
    var r := Interpolate(start, end, 1.0);
    forall i | 0 <= i < |end| ensures r[i] == end[i] {
      InterpolateAt(start, end, 1.0, i);
    }
  }

  /** At progress 0 every end key reads its start value. */
  lemma InterpolateAtZero(start: Points, end: Points)
    requires Covers(start, end)
    ensures var r := Interpolate(start, end, 0.0);
      forall i :: 0 <= i < |r| ==> Get(start, r[i].0) == Some(r[i].1)
  {
    var r := Interpolate(start, end, 0.0);
    forall i | 0 <= i < |r| ensures Get(start, r[i].0) == Some(r[i].1) {
      InterpolateAt(start, end, 0.0, i);
    }
  }

  /**
    When the start point has exactly the end point's keys, in the same order,
    progress 0 gives back the start point itself.
   */
  lemma InterpolateAtZeroIsStart(start: Points, end: Points)
    requires Keys(start) == Keys(end) && DistinctKeys(start)
    ensures Covers(start, end)
    ensures Interpolate(start, end, 0.0) == start
  {
    forall k | k in Keys(end) ensures HasKey(start, k) {
      GetHasKey(start, k);
    }
    var r := Interpolate(start, end, 0.0);
    forall i | 0 <= i < |start| ensures r[i] == start[i] {
      assert Keys(start)[i] == Keys(end)[i];
      InterpolateAt(start, end, 0.0, i);
      GetAt(start, i);
    }
  }

  /** For progress in [0, 1] every interpolated value lies between its start and end values. */
  lemma InterpolateBetween(start: Points, end: Points, p: real, i: nat)
    requires Covers(start, end) && i < |end| && 0.0 <= p <= 1.0
    ensures var s := Get(start, end[i].0).GetOr(0.0);
      var v := Interpolate(start, end, p)[i].1;
      (s <= end[i].1 ==> s <= v <= end[i].1) && (end[i].1 <= s ==> end[i].1 <= v <= s)
  {
    InterpolateAt(start, end, p, i);
  }

  /** Whether `getStyleObj`'s `switch` has a case for the key. */
  predicate Recognised(key: string) {
    Translation(key) || Rotation(key) || key == "scale"
  }

  predicate Translation(key: string) {
    key == "x" || key == "y" || key == "z"
  }

  predicate Rotation(key: string) {
    key == "rotateX" || key == "rotateY" || key == "rotateZ"
  }

  /** The CSS function each recognised key becomes. */
  function CssFunction(key: string): string {
    if key == "x" then "translateX"
    else if key == "y" then "translateY"
    else if key == "z" then "translateZ"
    else key
  }

  /**
    The text one key adds to the transform: ` fn(value unit)` for a
    recognised key, nothing otherwise. `fmt` stands for JavaScript's
    number-to-string conversion inside a template literal.
   */
  function Segment(key: string, v: real, fmt: real -> string): (s: string)
  {
    if key == "x" then " translateX(" + fmt(v) + "px)"
    else if key == "y" then " translateY(" + fmt(v) + "px)"
    else if key == "z" then " translateZ(" + fmt(v) + "px)"
    else if key == "rotateX" then " rotateX(" + fmt(v) + "deg)"
    else if key == "rotateY" then " rotateY(" + fmt(v) + "deg)"
    else if key == "rotateZ" then " rotateZ(" + fmt(v) + "deg)"
    else if key == "scale" then " scale(" + fmt(v) + ")"
    else ""
  }

  /** A key adds text exactly when the `switch` has a case for it; that text opens with a space and closes with `)`. */
  lemma SegmentEmpty(key: string, v: real, fmt: real -> string)
    ensures Segment(key, v, fmt) == "" <==> !Recognised(key)
    ensures var s := Segment(key, v, fmt);
      s != "" ==> s[0] == ' ' && s[|s| - 1] == ')'
  {
  }

  /** The `x`, `y` and `z` cases emit ` translateX(<value>px)` and the like. */
  lemma SegmentTranslation(key: string, v: real, fmt: real -> string)
    requires Translation(key)
    ensures Segment(key, v, fmt) == " " + CssFunction(key) + "(" + fmt(v) + "px)"
  {
    var n := fmt(v);
    if key == "x" {
      assert " translateX(" + n + "px)" == " " + "translateX" + "(" + n + "px)";
    } else if key == "y" {
      assert " translateY(" + n + "px)" == " " + "translateY" + "(" + n + "px)";
    } else {
      assert " translateZ(" + n + "px)" == " " + "translateZ" + "(" + n + "px)";
    }
  }

  /** The rotation cases emit ` rotateX(<value>deg)` and the like. */
  lemma SegmentRotation(key: string, v: real, fmt: real -> string)
    requires Rotation(key)
    ensures Segment(key, v, fmt) == " " + key + "(" + fmt(v) + "deg)"
  {
    var n := fmt(v);
    if key == "rotateX" {
      assert " rotateX(" + n + "deg)" == " " + "rotateX" + "(" + n + "deg)";
    } else if key == "rotateY" {
      assert " rotateY(" + n + "deg)" == " " + "rotateY" + "(" + n + "deg)";
    } else {
      assert " rotateZ(" + n + "deg)" == " " + "rotateZ" + "(" + n + "deg)";
    }
  }

  /** The `scale` case emits ` scale(<value>)`, with no unit. */
  lemma SegmentScale(v: real, fmt: real -> string)
    ensures Segment("scale", v, fmt) == " " + "scale" + "(" + fmt(v) + ")"
  {
    var n := fmt(v);
    assert " scale(" + n + ")" == " " + "scale" + "(" + n + ")";
  }

  /** The `transform` string of `getStyleObj`: the segments of the keys in key order. */
  function TransformString(points: Points, fmt: real -> string): string
  {
    if points == [] then "" else Segment(points[0].0, points[0].1, fmt) + TransformString(points[1..], fmt)
  }

  /** The transform of two concatenated point lists is the concatenation of their transforms. */
  lemma {:induction false} TransformStringAppend(a: Points, b: Points, fmt: real -> string)
    ensures TransformString(a + b, fmt) == TransformString(a, fmt) + TransformString(b, fmt)
  {
    if a == [] {
      assert a + b == b;
    } else {
      var head := Segment(a[0].0, a[0].1, fmt);
      AppendSplit(a, b);
      TransformStringAppend(a[1..], b, fmt);
      calc {
        TransformString(a + b, fmt);
        head + TransformString(a[1..] + b, fmt);
        head + (TransformString(a[1..], fmt) + TransformString(b, fmt));
        (head + TransformString(a[1..], fmt)) + TransformString(b, fmt);
      }
    }
  }

  /** The head and tail of a concatenation whose left part is non-empty. */
  lemma AppendSplit<T>(a: seq<T>, b: seq<T>)
    requires a != []
    ensures a + b != [] && (a + b)[0] == a[0] && (a + b)[1..] == a[1..] + b
  {
    assert (a + b)[1..] == a[1..] + b;
  }

  /** Appending one entry appends its segment. */
  lemma TransformStringSnoc(a: Points, x: (string, real), fmt: real -> string)
    ensures TransformString(a + [x], fmt) == TransformString(a, fmt) + Segment(x.0, x.1, fmt)
  {
    TransformStringAppend(a, [x], fmt);
    assert TransformString([x], fmt) == Segment(x.0, x.1, fmt) + TransformString([], fmt);
  }

  /** The entries whose key the `switch` recognises, in order. */
  function RecognisedOnly(points: Points): (r: Points)
    ensures |r| <= |points|
  {
    if points == [] then []
    else if Recognised(points[0].0) then [points[0]] + RecognisedOnly(points[1..])
    else RecognisedOnly(points[1..])
  }

  /** Unrecognised keys add nothing: dropping them leaves the transform unchanged. */
  lemma {:induction false} TransformStringIgnoresUnrecognised(points: Points, fmt: real -> string)
    ensures TransformString(points, fmt) == TransformString(RecognisedOnly(points), fmt)
  {
    if points != [] {
      TransformStringIgnoresUnrecognised(points[1..], fmt);
      var rest := RecognisedOnly(points[1..]);
      if Recognised(points[0].0) {
        assert ([points[0]] + rest)[1..] == rest;
      }
    }
  }

  /**
    `getStyleObj` as the component runs it: start from `''` and append one
    segment per key. The result is the transform string, and it is empty
    exactly when no key is recognised.
   */
  method BuildTransform(points: Points, fmt: real -> string) returns (style: string)
    ensures style == TransformString(points, fmt)
    ensures style == "" <==> RecognisedOnly(points) == []
  {
    style := "";
    var i := 0;
    while i < |points|
      invariant 0 <= i <= |points|
      invariant style == TransformString(points[..i], fmt)
    {
      TransformStringSnoc(points[..i], points[i], fmt);
      assert points[..i + 1] == points[..i] + [points[i]];
      style := style + Segment(points[i].0, points[i].1, fmt);
      i := i + 1;
    }
    assert points[..i] == points;
    TransformStringIgnoresUnrecognised(points, fmt);
    RecognisedOnlyEmpty(points, fmt);
  }

  /** The transform of recognised keys only is empty exactly when there are none. */
  lemma RecognisedOnlyEmpty(points: Points, fmt: real -> string)
    ensures TransformString(RecognisedOnly(points), fmt) == "" <==> RecognisedOnly(points) == []
  {
    var r := RecognisedOnly(points);
    if r != [] {
      RecognisedOnlyAreRecognised(points);
      assert Recognised(r[0].0);
      assert |Segment(r[0].0, r[0].1, fmt)| > 0;
    }
  }

  /** Every entry kept by `RecognisedOnly` has a recognised key. */
  lemma {:induction false} RecognisedOnlyAreRecognised(points: Points)
    ensures forall i :: 0 <= i < |RecognisedOnly(points)| ==> Recognised(RecognisedOnly(points)[i].0)
  {
    if points != [] {
      RecognisedOnlyAreRecognised(points[1..]);
    }
  }
}
