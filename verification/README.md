# react-parallax-scroll, modelled in Dafny

A model of the scroll coordination and interpolation core of
`react-parallax-scroll` (one React file, `src/react-parallax-scroll.js`).

- `ParallaxScrollContainer` keeps a registry of mounted parallax elements. It
  is a JavaScript `Map` from `'key' + n` to the element. On every throttled
  scroll it hands a frame of scroll offsets and viewport size to each
  registered element, unless the viewport's outer height is below 780.
- `ParallaxScrollElmConsumer` is the per-element controller.
  - Its constructor builds an in-view configuration from defaults and
    `props.inview`. It defaults the start style point to 0 for every end key
    and sets the initial class.
  - On each frame it computes a vertical progress in [-1, 1] from its bounding
    top and height. It interpolates every end key between start and end, and
    renders the result as a CSS transform string.
  - IntersectionObserver entries toggle its class between `classNameInView` and
    `classNameNotInView`.

Modules, one per component:

- `OrderedMaps`: insertion-ordered maps. They are the shape shared by a plain
  JavaScript object (`Object.keys` order) and a JavaScript `Map`.
- `Progress`: the frame, the `||` fallback chains, `getViewPercentage`.
- `Styles`: start-point defaulting, interpolation and `getStyleObj`.
- `Inview`: configuration merge, initial class, visibility state machine.
- `Container`: registry, registration, deregistration and dispatch.
- `Element`: the constructor and the element's `onScroll`, composed.

Numbers are `real`. Registry key `'key' + n` is the integer `n`. Browser reads
are parameters: bounding top, `clientHeight`/`offsetHeight`/`scrollHeight`,
`pageYOffset` and the other scroll offsets, `innerHeight`/`innerWidth`,
`outerHeight`/`outerWidth`, and whether IntersectionObserver exists. The
number-to-string conversion inside template literals is a function parameter
`fmt`.

Two defects of the container are modelled as written, each beside the
evidently intended behaviour (see Findings):

- The element's callback receives an id one past its storage key.
- `handleRemoveElm` never deletes anything.

## Model

| member | source | states |
|---|---|---|
| `OrderedMaps.SetGet` | src/react-parallax-scroll.js:38 | After a write, the written key reads the written value. Every other key reads as before. |
| `OrderedMaps.SetKeys` | src/react-parallax-scroll.js:149 | A write to a present key keeps the key order. A write to a new key appends it at the end. |
| `OrderedMaps.DeleteHasKey` | src/react-parallax-scroll.js:51 | After a delete, the deleted key is absent and every other key's presence is unchanged. |
| `OrderedMaps.DeleteGet` | src/react-parallax-scroll.js:51 | Deleting one key leaves every other key's value unchanged. |
| `OrderedMaps.DeleteSetNew` | src/react-parallax-scroll.js:38-51 | Writing a new key and then deleting it gives back the original map. |
| `Progress.FirstNonZero` | src/react-parallax-scroll.js:28 | The `a \|\| b \|\| c` chain returns the first non-zero operand. It is zero only when all three are zero. |
| `Progress.ElementHeight` | src/react-parallax-scroll.js:232 | The height is `clientHeight` when non-zero, else the first non-zero fallback. It is 0 only if all three are 0. |
| `Progress.Divisor` | src/react-parallax-scroll.js:236 | `d` is never zero. It is 1 when `endPercent` is absent or 0, and `endPercent` otherwise. |
| `Progress.Clamp` | src/react-parallax-scroll.js:241 | The result is in [-1, 1], equals the input when the input is in range, and saturates at the bounds. |
| `Progress.ViewPercentage` | src/react-parallax-scroll.js:228-244 | Progress `y` is in [-1, 1] and equals the raw ratio when that ratio is in range. It is 1 or -1 when the ratio is beyond those bounds. |
| `Progress.RawProgressRelative` | src/react-parallax-scroll.js:231-237 | `wrapperPosY` cancels out. The raw ratio is `(screenY - top) * d / (height + screenY)`. |
| `Progress.ViewPercentageIgnoresScrollOffset` | src/react-parallax-scroll.js:231-237 | Two frames with the same `screenY` give the same progress, whatever their scroll offsets. |
| `Progress.ViewPercentageDefault` | src/react-parallax-scroll.js:236-241 | With no `endPercent`, progress is the clamped `(screenY - top) / (height + screenY)`. |
| `Progress.ViewPercentageZero` | src/react-parallax-scroll.js:237-241 | Progress is 0 exactly when the element's top is at the bottom edge of the viewport. |
| `Progress.ViewPercentageMonotone` | src/react-parallax-scroll.js:237-241 | For positive `d` and denominator, progress never decreases as the bounding top decreases. |
| `Progress.ViewPercentageFinished` | src/react-parallax-scroll.js:237-241 | Progress is 1 once the top is `(height + screenY) / d` above the viewport's bottom edge. |
| `Progress.ViewPercentageNotBegun` | src/react-parallax-scroll.js:237-241 | Progress is -1 while the top is `(height + screenY) / d` or more below the bottom edge. |
| `Styles.DefaultStartGet` | src/react-parallax-scroll.js:147-151 | After defaulting, an end key with a missing or 0 start value reads 0. Every other key reads its given value. |
| `Styles.DefaultStartKeysPrefix` | src/react-parallax-scroll.js:147-151 | Defaulting only appends keys. The given start keys keep their order at the front. |
| `Styles.DefaultStartDistinct` | src/react-parallax-scroll.js:147-151 | Defaulting never creates a duplicate key. |
| `Styles.DefaultStartCovers` | src/react-parallax-scroll.js:147-151 | After defaulting, every key of the end point is present in the start point. |
| `Styles.Lerp` | src/react-parallax-scroll.js:221 | The value is the start value at p = 0 and the end value at p = 1. For p in [0, 1] it lies between them. |
| `Styles.Interpolate` | src/react-parallax-scroll.js:220-222 | The in-progress point has exactly the end point's keys, in the same order. |
| `Styles.InterpolateAt` | src/react-parallax-scroll.js:220-222 | Entry i has end key i. Its value is the interpolation of that key's start and end values. |
| `Styles.InterpolateAtOne` | src/react-parallax-scroll.js:220-222 | At p = 1 the in-progress point equals the end point. |
| `Styles.InterpolateAtZero` | src/react-parallax-scroll.js:220-222 | At p = 0 every in-progress value equals the start value of its key. |
| `Styles.InterpolateAtZeroIsStart` | src/react-parallax-scroll.js:220-222 | When the start point has exactly the end keys in the same order, progress 0 gives back the start point. |
| `Styles.InterpolateBetween` | src/react-parallax-scroll.js:221 | For p in [0, 1] every in-progress value lies between its start and end values. |
| `Styles.SegmentEmpty` | src/react-parallax-scroll.js:248-270 | A key adds text exactly when the `switch` has a case for it. That text starts with a space and ends with `)`. |
| `Styles.SegmentTranslation` | src/react-parallax-scroll.js:249-257 | `x`, `y` and `z` emit ` translateX(`, ` translateY(` or ` translateZ(`, then the value, then `px)`. |
| `Styles.SegmentRotation` | src/react-parallax-scroll.js:258-266 | `rotateX`, `rotateY` and `rotateZ` emit a space, the key's own name, `(`, the value and `deg)`. |
| `Styles.SegmentScale` | src/react-parallax-scroll.js:267-269 | `scale` emits ` scale(`, the value and `)`, with no unit. |
| `Styles.TransformStringAppend` | src/react-parallax-scroll.js:246-271 | The transform of concatenated points is the concatenation of their transforms, so segments appear in key order. |
| `Styles.TransformStringSnoc` | src/react-parallax-scroll.js:247-271 | Appending one entry appends exactly that entry's segment. |
| `Styles.TransformStringIgnoresUnrecognised` | src/react-parallax-scroll.js:247-271 | Removing every unrecognised key leaves the transform unchanged. |
| `Styles.BuildTransform` | src/react-parallax-scroll.js:245-277 | The left-to-right loop equals the segment-by-segment definition. The result is `''` exactly when no key is recognised, so an empty point gives `''`. |
| `Styles.RecognisedOnlyEmpty` | src/react-parallax-scroll.js:247-271 | A transform built from recognised keys only is empty exactly when there are none. |
| `Inview.MergeIsOverride` | src/react-parallax-scroll.js:136-142 | If the fields named in the props are truthy beforehand, the override loop equals the reference rule. Each recognised key replaces its own field; unrecognised keys are ignored. |
| `Inview.DefaultsArmed` | src/react-parallax-scroll.js:128-134 | Every default value is truthy, so the guard lets each recognised key through. |
| `Inview.ConfigOfOverrides` | src/react-parallax-scroll.js:128-142 | The configuration is the defaults without `props.inview`. Otherwise each of the five keys is overridden individually when present. |
| `Inview.MergeAppend` | src/react-parallax-scroll.js:138-141 | The override loop over `a + b` is the loop over `a` followed by the loop over `b`. |
| `Inview.MergeSkipsUnrecognised` | src/react-parallax-scroll.js:138-141 | Dropping an unrecognised key from the props never changes the resulting configuration. |
| `Inview.InitialClassNameOf` | src/react-parallax-scroll.js:137-154 | The initial class is `'not-in-view'` under the defaults. It is `''` when `active` is given as `false` or `undefined`. Otherwise it is the given `classNameNotInView`, or `'not-in-view'` if that is not given. |
| `Inview.ActiveUndefinedSwitchesOff` | src/react-parallax-scroll.js:137-154 | `active: undefined` passes the guard and is stored, so it gives the same configuration as `active: false`: class `''` and no observer. |
| `Inview.Mounted` | src/react-parallax-scroll.js:170-184 | After mount, the class is `classNameNotInView` if active, else `''`. Observation runs only if active and IntersectionObserver exists. |
| `Inview.OnEntry` | src/react-parallax-scroll.js:195-210 | An entry for another target changes nothing. Intersecting sets `classNameInView` and stops observing iff `repeatInView` is false. Otherwise `classNameNotInView` is set. |
| `Inview.EntriesCheckOutcome` | src/react-parallax-scroll.js:193-212 | A callback with no entry for the element changes nothing. Otherwise the class follows the last such entry. Observation stops exactly when `repeatInView` is off and an entry reported intersecting. |
| `Inview.DeliverAfterUnobserve` | src/react-parallax-scroll.js:202-204 | Once observation has stopped, no later callback changes the state. |
| `Inview.InViewIsFinalWithoutRepeat` | src/react-parallax-scroll.js:197-204 | Without `repeatInView`, a callback whose last own entry is intersecting leaves `classNameInView` in place for good. |
| `Inview.EntriesCheckKeepsObservingWithRepeat` | src/react-parallax-scroll.js:202-204 | With `repeatInView`, a callback never stops observation. |
| `Inview.InThenOutFreezesNotInView` | src/react-parallax-scroll.js:193-212 | Without `repeatInView`, a callback reporting the element in view and then out of view stops observation and leaves `classNameNotInView` for good. |
| `Inview.UnobservedKeepsInitialClass` | src/react-parallax-scroll.js:170-174 | With tracking off or no IntersectionObserver, the class keeps its initial value forever. |
| `Container.FrameOf` | src/react-parallax-scroll.js:27-32 | The frame's `screenY`/`screenX` are the inner size. Its scroll offsets follow the `\|\|` fallback chains. |
| `Container.Dispatch` | src/react-parallax-scroll.js:24-34 | There are no calls when `outerHeight < 780`. Otherwise there is one call per registry entry, each carrying the frame built from the window values. |
| `Container.DispatchCallsEachOnce` | src/react-parallax-scroll.js:26-33 | On a tall viewport, each registered key is called exactly once with its own element. No call names an unregistered key. |
| `Container.RegisterAsWrittenReportsWrongKey` | src/react-parallax-scroll.js:35-45 | As written, the element is appended under key `size`. The reported key is `size + 1`, which names no entry. |
| `Container.ReportedKeyNamesNextElement` | src/react-parallax-scroll.js:38-39 | As written, the key reported to one element is the storage key of the next element registered. |
| `Container.DeregisterAsWrittenKeepsElement` | src/react-parallax-scroll.js:47-57 | As written, deregistering with either key leaves the element registered. |
| `Container.Register` | src/react-parallax-scroll.js:35-45 | Intended: the element is appended under a fresh key from `lastKey`, and that key is reported. Other keys are untouched and the invariant holds. |
| `Container.Deregister` | src/react-parallax-scroll.js:47-57 | Intended: the key is removed and other entries are unchanged. An unknown key leaves the registry unchanged. |
| `Container.RegisterDeregister` | src/react-parallax-scroll.js:35-57 | Intended: deregistering with the reported key undoes a registration. |
| `Container.MountUnmountLeavesNothing` | src/react-parallax-scroll.js:24-57 | Intended: register then deregister on an empty container leaves it empty. The next dispatch then calls nobody. |
| `Container.SizeMintingCollides` | src/react-parallax-scroll.js:38 | With working deletion, `'key' + size` minting reuses a live key: the third element replaces the second. |
| `Container.NewElementGetsInitialFrame` | src/react-parallax-scroll.js:43-45 | The dispatch after registration gives the new element a frame when the viewport is tall enough. |
| `Element.SelectStart` | src/react-parallax-scroll.js:144 | The given start point is empty without `parallax.start` or when `outerWidth <= 780`, and is `parallax.start` otherwise. |
| `Element.SelectEnd` | src/react-parallax-scroll.js:145 | The end point is `parallax.end`, or empty when that is absent. |
| `Element.Construct` | src/react-parallax-scroll.js:124-156 | After construction, every end key has a start value. |
| `Element.ConstructStartStyles` | src/react-parallax-scroll.js:144-151 | Falsy start values of end keys become 0 and truthy ones are kept. On a narrow viewport or without `start`, exactly the end keys start at 0. |
| `Element.ConstructClassAndStyle` | src/react-parallax-scroll.js:128-156 | The configuration is the overridden defaults and the class is `classNameNotInView` if active, else `''`. The style is the start point's transform. |
| `Element.Percentage` | src/react-parallax-scroll.js:218 | The progress an element scrolls with lies in [-1, 1]. |
| `Element.OnScroll` | src/react-parallax-scroll.js:213-227 | A scroll changes only the style. |
| `Element.OnScrollFinished` | src/react-parallax-scroll.js:213-241 | Once the top is `(height + screenY) / d` above the viewport's bottom edge, a scroll renders the end point's transform. |
| `Element.OnScrollAtBottomEdge` | src/react-parallax-scroll.js:213-241 | With the top on the bottom edge, a scroll renders the start point again, provided the start point has the end keys in end-key order. |
| `Element.ScenarioHalfway` | src/react-parallax-scroll.js:213-253 | Start `{y: 0}`, end `{y: 100}`, raw ratio 0.5: the style is ` translateY(50px)`. |
| `Element.ScenarioDefaultedScale` | src/react-parallax-scroll.js:147-151 | End `{scale: 2}` with no start: the start scale is 0, and at p = 0.25 the scale is 0.5. |
| `Element.StartOnlyKeyDroppedOnScroll` | src/react-parallax-scroll.js:155-225 | Start `{x: 10}`, end `{}`: construction renders ` translateX(10px)`, and the first scroll renders `''`. |

## Left out

- React lifecycle, `setState` batching, render and JSX (lines 59-70, 279-292): UI framework plumbing. A state update is modelled as an immediate value.
- The `lodash.throttle` wrapper and the `window` scroll listener (line 22): timing and event-loop behaviour.
- IntersectionObserver construction, `rootMargin` and the polyfill check (lines 171-184). Only the entries delivered to the callback are modelled, plus a flag for whether the API exists. `viewMargin` is carried but not interpreted.
- Exact arithmetic: numbers are exact reals and IEEE-754 double rounding is not modelled. The equalities stated about progress and interpolation hold in the source only up to rounding. For example, with start `1e16`, end `1` and p = 1, line 221 gives `0` in doubles, not `1`.
- Container.Dispatch: the window is read once per dispatch. The source builds a fresh frame literal for each element (lines 26-32), after earlier elements' `onScroll` has run. The model assumes the window values do not change during one loop.
- DOM geometry reads (`getBoundingClientRect`, `clientHeight`, `pageYOffset`, `innerHeight`, ...): parameters.
- JavaScript number-to-string formatting inside template literals: the parameter `fmt`.
- `Progress.ViewPercentage`: requires `elmHeight + screenY != 0`. The source would compute `NaN` or an infinity there; IEEE special values are not modelled.
- `Styles.Interpolate`: requires every end key to have a start value. Construction guarantees this (`Element.Construct`); the source would compute `NaN` otherwise.
- `NaN` as a falsy number: "falsy" for a number means absent or 0.
- Aliasing of `props.parallax.start`: the defaulting loop mutates the caller's prop object (lines 144, 149).
- `console` logging (lines 56, 172).
- The commented-out horizontal axis (lines 234-235, 238, 242).
- Numeric-looking style keys: they are ordered first by `Object.keys` in JavaScript; the model keeps insertion order for all keys.
- Values of the wrong JavaScript type in `props.inview` (a string for `active`, say): each recognised key carries its declared type. The two optional booleans may also be `undefined`, which is modelled. An `undefined` for one of the three string keys is not modelled; the source would render it as the text `undefined`.
- `Inview.MergeIsOverride`: stated for well-formed props only (distinct keys, `Unrecognised` never carrying a recognised name), as every object literal is. Keys inherited from `Object.prototype` are copied onto the config object at runtime but touch none of the five modelled fields.
- The mount and unmount wiring (lines 162-168, 186-189): an element registers only if it has `parallax` props and a provider, and on unmount it disconnects its observer and deregisters. The model gives the registry operations and leaves the component wiring out.
- `getStyleObj` returns an object `{transform: style}`: the model returns the `transform` string alone.
- A controller that throws during dispatch: there is no exception model, and every element's `onScroll` is total here.

## Findings

| source | as written | input that shows it | evidently intended | confidence | as-written member | corrected member |
|---|---|---|---|---|---|---|
| src/react-parallax-scroll.js:49-57 | `setState((updater, logger))` is a comma expression, so only the logging arrow is passed. The `delete` never runs. | Register one element (stored as `key0`), then call `handleRemoveElm('key0')`: the registry still holds it. | The key is removed from the Map. | high; not executed | `Container.DeregisterAsWrittenKeepsElement` | `Container.Deregister` |
| src/react-parallax-scroll.js:38-39 | The element is stored under `'key' + size` before insertion, but the callback gets `'key' + size` after insertion. | Register into an empty container: stored under `key0`, reported `key1`. A second element is then stored under `key1`. | The element remembers its own storage key. | high; not executed | `Container.RegisterAsWrittenReportsWrongKey` | `Container.Register` |

`Container.ReportedKeyNamesNextElement` shows the consequence of the second
row: the id the first element remembers is the storage key of the second
element. Once deletion works, the first element's unmount would deregister the
second element.

The corrected registration mints keys from the `lastKey` counter, which the
component declares (line 19) but never uses. `Container.SizeMintingCollides`
shows why: once deletion works, size-based keys collide with live entries.

Two further behaviours are modelled as written. Neither is listed as a defect,
because the source gives no sign of what was intended:

- A start key with no end key is rendered at construction (line 155). It
  disappears on the first scroll, because line 220 iterates over the end keys
  only (`Element.StartOnlyKeyDroppedOnScroll`). It is not held at its start
  value.
- Without `repeatInView`, one callback may report the element in view and
  then out of view. The first entry unobserves the element (line 203) and the
  second sets `classNameNotInView` (line 208). No further callback arrives, so
  the element never shows `classNameInView`
  (`Inview.InThenOutFreezesNotInView`).
