/**
  The in-view half of `ParallaxScrollElmConsumer`: the configuration built in
  the constructor from the defaults and `props.inview`, the initial class
  name, and the class-name state machine driven by IntersectionObserver
  entries (`observerEntriesCheck`). The observer itself is a browser API; only
  the entries it delivers are modelled, as inputs.
 */
module Inview {
  import opened Options

  datatype InviewConfig = InviewConfig(
    active: bool,
    classNameInView: string,
    classNameNotInView: string,
    viewMargin: string,
    repeatInView: bool)

  /** The defaults the constructor starts from. */
  const Defaults := InviewConfig(true, "in-view", "not-in-view", "0px", true)

  /**
    One own property of `props.inview`, in `Object.keys` order. The five
    recognised keys carry the value type their declared prop type gives them;
    the two optional booleans may also be given as `undefined` (`None`).
    Every other key is `Unrecognised`.
   */
  datatype InviewOption =
    | Active(b: Option<bool>)
    | ClassNameInView(s: string)
    | ClassNameNotInView(s: string)
    | ViewMargin(s: string)
    | RepeatInView(b: Option<bool>)
    | Unrecognised(name: string)

  /**
    The truth value an optional boolean leaves in the config: an explicit
    `undefined` is stored as is, and every later test of it reads it as false.
   */
  predicate Truthy(b: Option<bool>) {
    b == Some(true)
  }

  const KnownNames: set<string> := {"active", "classNameInView", "classNameNotInView", "viewMargin", "repeatInView"}

  /** The property key an option was read from. */
  function Name(o: InviewOption): string {
    match o
    case Active(_) => "active"
    case ClassNameInView(_) => "classNameInView"
    case ClassNameNotInView(_) => "classNameNotInView"
    case ViewMargin(_) => "viewMargin"
    case RepeatInView(_) => "repeatInView"
    case Unrecognised(n) => n
  }

  /**
    What an object literal can be: no key twice, and an `Unrecognised` option
    never carries one of the five recognised names.
   */
  predicate WellFormed(props: seq<InviewOption>) {
    && (forall i, j :: 0 <= i < j < |props| ==> Name(props[i]) != Name(props[j]))
    && (forall i :: 0 <= i < |props| && props[i].Unrecognised? ==> props[i].name !in KnownNames)
  }

  /**
    The guard `if (!this.inviewConfig[key]) return;`: the CURRENT config value
    under the key must be truthy. An unrecognised key reads `undefined` from
    the config. (A key inherited from `Object.prototype`, such as
    `constructor`, reads truthy and is copied onto the config object, but it
    never touches the five fields modelled here.)
   */
  predicate CurrentTruthy(cfg: InviewConfig, o: InviewOption) {
    match o
    case Active(_) => cfg.active
    case ClassNameInView(_) => cfg.classNameInView != ""
    case ClassNameNotInView(_) => cfg.classNameNotInView != ""
    case ViewMargin(_) => cfg.viewMargin != ""
    case RepeatInView(_) => cfg.repeatInView
    case Unrecognised(_) => false
  }

  /** The assignment `this.inviewConfig[key] = props.inview[key]`. */
  function Assign(cfg: InviewConfig, o: InviewOption): InviewConfig {
    match o
    case Active(b) => cfg.(active := Truthy(b))
    case ClassNameInView(s) => cfg.(classNameInView := s)
    case ClassNameNotInView(s) => cfg.(classNameNotInView := s)
    case ViewMargin(s) => cfg.(viewMargin := s)
    case RepeatInView(b) => cfg.(repeatInView := Truthy(b))
    case Unrecognised(_) => cfg
  }

  /** The override loop over the keys of `props.inview`, in order. */
  function Merge(cfg: InviewConfig, props: seq<InviewOption>): InviewConfig
    decreases |props|
  {
    if props == [] then cfg
    else
      var cfg' := if CurrentTruthy(cfg, props[0]) then Assign(cfg, props[0]) else cfg;
      Merge(cfg', props[1..])
  }

  /** The constructor's `inviewConfig`: the defaults, overridden when `props.inview` is given. */
  function ConfigOf(inview: Option<seq<InviewOption>>): InviewConfig {
    match inview
    case None => Defaults
    case Some(props) => Merge(Defaults, props)
  }

  /** The first option read from the given key, if any. */
  function Find(props: seq<InviewOption>, name: string): Option<InviewOption>
    decreases |props|
  {
    if props == [] then None
    else if Name(props[0]) == name then Some(props[0])
    else Find(props[1..], name)
  }

  /**
    Reference definition of the intended override rule: every recognised key
    present in the props replaces that one field of `base`; anything else is
    ignored.
   */
  function Override(base: InviewConfig, props: seq<InviewOption>): InviewConfig {
    InviewConfig(
      active := match Find(props, "active") case Some(Active(b)) => Truthy(b) case _ => base.active,
      classNameInView := match Find(props, "classNameInView") case Some(ClassNameInView(s)) => s case _ => base.classNameInView,
      classNameNotInView := match Find(props, "classNameNotInView") case Some(ClassNameNotInView(s)) => s case _ => base.classNameNotInView,
      viewMargin := match Find(props, "viewMargin") case Some(ViewMargin(s)) => s case _ => base.viewMargin,
      repeatInView := match Find(props, "repeatInView") case Some(RepeatInView(b)) => Truthy(b) case _ => base.repeatInView)
  }

  /** Every recognised option of `props` finds a truthy current value in `cfg`. */
  predicate Armed(cfg: InviewConfig, props: seq<InviewOption>) {
    forall i :: 0 <= i < |props| && !props[i].Unrecognised? ==> CurrentTruthy(cfg, props[i])
  }

  /** A name already used by the first option does not occur again. */
  lemma FindAfterHead(props: seq<InviewOption>)
    requires WellFormed(props) && props != []
    ensures Find(props[1..], Name(props[0])) == None
  {
    if Find(props[1..], Name(props[0])).Some? {
      FindWitness(props[1..], Name(props[0]));
    }
  }

  /** A found option occurs in the sequence. */
  lemma {:induction false} FindWitness(props: seq<InviewOption>, name: string)
    requires Find(props, name).Some?
    ensures exists i :: 0 <= i < |props| && props[i] == Find(props, name).value && Name(props[i]) == name
    decreases |props|
  {
    if Name(props[0]) != name {
      FindWitness(props[1..], name);
      var i :| 0 <= i < |props[1..]| && props[1..][i] == Find(props, name).value && Name(props[1..][i]) == name;
      assert props[i + 1] == props[1..][i];
    }
  }

  /**
    The override loop implements the override rule whenever the current
    values it tests are truthy: each recognised key replaces its own field,
    individually, and unrecognised keys change nothing.
   */
  lemma {:induction false} MergeIsOverride(cfg: InviewConfig, props: seq<InviewOption>)
    requires WellFormed(props) && Armed(cfg, props)
    ensures Merge(cfg, props) == Override(cfg, props)
    decreases |props|
  {
    if props != [] {
      var o := props[0];
      var rest := props[1..];
      var cfg' := if CurrentTruthy(cfg, o) then Assign(cfg, o) else cfg;
      WellFormedTail(props);
      ArmedTail(cfg, props);
      MergeIsOverride(cfg', rest);
      FindAfterHead(props);
      assert !o.Unrecognised? ==> CurrentTruthy(cfg, o);
      assert o.Unrecognised? ==> o.name !in KnownNames;
      forall name | name in KnownNames && name != Name(o)
        ensures Find(props, name) == Find(rest, name)
      {
      }
    }
  }

  /** The tail of a well-formed option list is well-formed. */
  lemma WellFormedTail(props: seq<InviewOption>)
    requires WellFormed(props) && props != []
    ensures WellFormed(props[1..])
  {
    var rest := props[1..];
    forall i, j | 0 <= i < j < |rest| ensures Name(rest[i]) != Name(rest[j]) {
      assert rest[i] == props[i + 1] && rest[j] == props[j + 1];
    }
    forall i | 0 <= i < |rest| && rest[i].Unrecognised? ensures rest[i].name !in KnownNames {
      assert rest[i] == props[i + 1];
    }
  }

  /** Applying the first option keeps the rest armed: their fields are other fields. */
  lemma ArmedTail(cfg: InviewConfig, props: seq<InviewOption>)
    requires WellFormed(props) && Armed(cfg, props) && props != []
    ensures var o := props[0];
      Armed(if CurrentTruthy(cfg, o) then Assign(cfg, o) else cfg, props[1..])
  {
    var o := props[0];
    var cfg' := if CurrentTruthy(cfg, o) then Assign(cfg, o) else cfg;
    var rest := props[1..];
    forall i | 0 <= i < |rest| && !rest[i].Unrecognised? ensures CurrentTruthy(cfg', rest[i]) {
      assert rest[i] == props[i + 1];
      assert Name(rest[i]) != Name(o);
      assert CurrentTruthy(cfg, rest[i]);
    }
  }

  /** Every default is truthy, so the override loop over any props starts armed. */
  lemma DefaultsArmed(props: seq<InviewOption>)
    ensures Armed(Defaults, props)
  {
  }

  /**
    The constructor's configuration: the defaults when `props.inview` is
    absent, otherwise the defaults with each recognised key overridden.
   */
  lemma ConfigOfOverrides(inview: Option<seq<InviewOption>>)
    requires inview.Some? ==> WellFormed(inview.value)
    ensures inview == None ==> ConfigOf(inview) == Defaults
    ensures inview.Some? ==> ConfigOf(inview) == Override(Defaults, inview.value)
  {
    if inview.Some? {
      DefaultsArmed(inview.value);
      MergeIsOverride(Defaults, inview.value);
    }
  }

  /** The override loop over `a + b` is the loop over `a` followed by the loop over `b`. */
  lemma {:induction false} MergeAppend(cfg: InviewConfig, a: seq<InviewOption>, b: seq<InviewOption>)
    ensures Merge(cfg, a + b) == Merge(Merge(cfg, a), b)
    decreases |a|
  {
    if a == [] {
      assert a + b == b;
    } else {
      assert (a + b)[0] == a[0];
      assert (a + b)[1..] == a[1..] + b;
      var cfg' := if CurrentTruthy(cfg, a[0]) then Assign(cfg, a[0]) else cfg;
      MergeAppend(cfg', a[1..], b);
    }
  }

  /** Removing an unrecognised key from the props never changes the result, whatever the other keys. */
  lemma MergeSkipsUnrecognised(cfg: InviewConfig, props: seq<InviewOption>, i: nat)
    requires i < |props| && props[i].Unrecognised?
    ensures Merge(cfg, props) == Merge(cfg, props[..i] + props[i + 1..])
  {
    assert props == props[..i] + ([props[i]] + props[i + 1..]);
    MergeAppend(cfg, props[..i], [props[i]] + props[i + 1..]);
    MergeAppend(Merge(cfg, props[..i]), [props[i]], props[i + 1..]);
    MergeAppend(cfg, props[..i], props[i + 1..]);
    assert ([props[i]] + props[i + 1..])[1..] == props[i + 1..];
  }

  /** The initial class: `classNameNotInView` when in-view tracking is active, otherwise empty. */
  function InitialClassName(cfg: InviewConfig): string {
    if cfg.active then cfg.classNameNotInView else ""
  }

  /** Whether the props switch tracking off: `active` given as `false` or as `undefined`. */
  predicate SwitchesOff(props: seq<InviewOption>) {
    match Find(props, "active")
    case Some(Active(b)) => !Truthy(b)
    case _ => false
  }

  /** The initial class under the defaults and under each way of switching tracking off or renaming the class. */
  lemma InitialClassNameOf(inview: Option<seq<InviewOption>>)
    requires inview.Some? ==> WellFormed(inview.value)
    ensures inview == None ==> InitialClassName(ConfigOf(inview)) == "not-in-view"
    ensures inview.Some? && SwitchesOff(inview.value)
      ==> InitialClassName(ConfigOf(inview)) == ""
    ensures inview.Some? && !SwitchesOff(inview.value)
      ==> InitialClassName(ConfigOf(inview)) == match Find(inview.value, "classNameNotInView")
            case Some(ClassNameNotInView(s)) => s
            case _ => "not-in-view"
  {
    ConfigOfOverrides(inview);
  }

  /** An IntersectionObserver entry: the observed element and whether it now intersects the viewport. */
  datatype Entry = Entry(target: nat, isIntersecting: bool)

  /** The element's class name and whether its observer still watches it. */
  datatype Visibility = Visibility(className: string, observing: bool)

  /**
    The state once mounted: the initial class, and observation running only
    when tracking is active and the browser has an IntersectionObserver.
   */
  function Mounted(cfg: InviewConfig, observerSupported: bool): (v: Visibility)
    ensures v.className == (if cfg.active then cfg.classNameNotInView else "")
    ensures v.observing <==> cfg.active && observerSupported
  {
    Visibility(InitialClassName(cfg), cfg.active && observerSupported)
  }

  /**
    `inview={{active: undefined}}` switches tracking off exactly as `false`
    does: the key is listed, the default `true` lets it through, and the
    stored `undefined` gives the empty class and no observer.
   */
  lemma ActiveUndefinedSwitchesOff(others: seq<InviewOption>, observerSupported: bool)
    requires WellFormed([Active(None)] + others)
    ensures var cfg := ConfigOf(Some([Active(None)] + others));
      && !cfg.active
      && Mounted(cfg, observerSupported) == Visibility("", false)
      && cfg == ConfigOf(Some([Active(Some(false))] + others))
  {
    var props := [Active(None)] + others;
    var props' := [Active(Some(false))] + others;
    assert Find(props, "active") == Some(Active(None));
    assert Find(props', "active") == Some(Active(Some(false)));
    assert props'[1..] == others == props[1..];
    forall i, j | 0 <= i < j < |props'| ensures Name(props'[i]) != Name(props'[j]) {
      assert Name(props'[i]) == Name(props[i]) && Name(props'[j]) == Name(props[j]);
    }
    forall i | 0 <= i < |props'| && props'[i].Unrecognised? ensures props'[i].name !in KnownNames {
      assert props'[i] == props[i];
    }
    ConfigOfOverrides(Some(props));
    ConfigOfOverrides(Some(props'));
    forall name | name != "active" ensures Find(props, name) == Find(props', name) {
    }
  }

  /** One entry of `observerEntriesCheck`, for the element identified by `self`. */
  function OnEntry(cfg: InviewConfig, self: nat, v: Visibility, e: Entry): (v': Visibility)
    ensures e.target != self ==> v' == v
    ensures e.target == self && e.isIntersecting ==>
      v'.className == cfg.classNameInView && (v'.observing <==> v.observing && cfg.repeatInView)
    ensures e.target == self && !e.isIntersecting ==>
      v'.className == cfg.classNameNotInView && v'.observing == v.observing
  {
    if e.target != self then v
    else if e.isIntersecting then
      Visibility(cfg.classNameInView, if !cfg.repeatInView then false else v.observing)
    else
      v.(className := cfg.classNameNotInView)
  }

  /** `observerEntriesCheck`: the entries of one callback, in order. */
  function EntriesCheck(cfg: InviewConfig, self: nat, v: Visibility, entries: seq<Entry>): Visibility
    decreases |entries|
  {
    if entries == [] then v else EntriesCheck(cfg, self, OnEntry(cfg, self, v, entries[0]), entries[1..])
  }

  /** The last entry about `self`, if any. */
  function LastOwn(self: nat, entries: seq<Entry>): (r: Option<Entry>)
    ensures r.Some? ==> r.value.target == self
    decreases |entries|
  {
    if entries == [] then None
    else match LastOwn(self, entries[1..])
      case Some(e) => Some(e)
      case None => if entries[0].target == self then Some(entries[0]) else None
  }

  /** Whether some entry reports `self` intersecting. */
  predicate SawOwnIntersecting(self: nat, entries: seq<Entry>) {
    exists i :: 0 <= i < |entries| && entries[i].target == self && entries[i].isIntersecting
  }

  /**
    The outcome of one callback: without an entry about the element nothing
    changes; otherwise the class is that of the last such entry, and
    observation stops exactly when `repeatInView` is off and the element was
    reported intersecting.
   */
  lemma {:induction false} EntriesCheckOutcome(cfg: InviewConfig, self: nat, v: Visibility, entries: seq<Entry>)
    ensures LastOwn(self, entries) == None ==> EntriesCheck(cfg, self, v, entries) == v
    ensures LastOwn(self, entries).Some? ==>
      EntriesCheck(cfg, self, v, entries).className ==
        if LastOwn(self, entries).value.isIntersecting then cfg.classNameInView else cfg.classNameNotInView
    ensures EntriesCheck(cfg, self, v, entries).observing <==>
      v.observing && (cfg.repeatInView || !SawOwnIntersecting(self, entries))
    decreases |entries|
  {
    if entries != [] {
      var v' := OnEntry(cfg, self, v, entries[0]);
      EntriesCheckOutcome(cfg, self, v', entries[1..]);
      if SawOwnIntersecting(self, entries[1..]) {
        var i :| 0 <= i < |entries[1..]| && entries[1..][i].target == self && entries[1..][i].isIntersecting;
        assert entries[i + 1] == entries[1..][i];
      }
      if SawOwnIntersecting(self, entries) && !(entries[0].target == self && entries[0].isIntersecting) {
        var i :| 0 <= i < |entries| && entries[i].target == self && entries[i].isIntersecting;
        assert i > 0 && entries[1..][i - 1] == entries[i];
      }
    }
  }

  /**
    The browser's side of the bargain: a callback is delivered only while the
    element is observed. Batches arriving after `unobserve` never reach it.
   */
  function Deliver(cfg: InviewConfig, self: nat, v: Visibility, batches: seq<seq<Entry>>): Visibility
    decreases |batches|
  {
    if batches == [] then v
    else
      var v' := if v.observing then EntriesCheck(cfg, self, v, batches[0]) else v;
      Deliver(cfg, self, v', batches[1..])
  }

  /** Once observation has stopped, the class never changes again. */
  lemma {:induction false} DeliverAfterUnobserve(cfg: InviewConfig, self: nat, v: Visibility, batches: seq<seq<Entry>>)
    requires !v.observing
    ensures Deliver(cfg, self, v, batches) == v
    decreases |batches|
  {
    if batches != [] {
      DeliverAfterUnobserve(cfg, self, v, batches[1..]);
    }
  }

  /**
    Without `repeatInView`, a callback whose last entry about the element
    reports it intersecting leaves the in-view class in place for good.
   */
  lemma InViewIsFinalWithoutRepeat(cfg: InviewConfig, self: nat, v: Visibility, batch: seq<Entry>, later: seq<seq<Entry>>)
    requires !cfg.repeatInView
    requires LastOwn(self, batch).Some? && LastOwn(self, batch).value.isIntersecting
    ensures Deliver(cfg, self, EntriesCheck(cfg, self, v, batch), later).className == cfg.classNameInView
  {
    EntriesCheckOutcome(cfg, self, v, batch);
    LastOwnWitness(self, batch);
    DeliverAfterUnobserve(cfg, self, EntriesCheck(cfg, self, v, batch), later);
  }

  /** The last entry about the element is one of the entries. */
  lemma {:induction false} LastOwnWitness(self: nat, entries: seq<Entry>)
    requires LastOwn(self, entries).Some?
    ensures exists i :: 0 <= i < |entries| && entries[i] == LastOwn(self, entries).value
    decreases |entries|
  {
    if LastOwn(self, entries[1..]).Some? {
      LastOwnWitness(self, entries[1..]);
      var i :| 0 <= i < |entries[1..]| && entries[1..][i] == LastOwn(self, entries).value;
      assert entries[i + 1] == entries[1..][i];
    } else {
      assert entries[0] == LastOwn(self, entries).value;
    }
  }

  /** With `repeatInView`, a callback never stops observation. */
  lemma EntriesCheckKeepsObservingWithRepeat(cfg: InviewConfig, self: nat, v: Visibility, entries: seq<Entry>)
    requires cfg.repeatInView
    ensures EntriesCheck(cfg, self, v, entries).observing == v.observing
  {
    EntriesCheckOutcome(cfg, self, v, entries);
  }

  /**
    With tracking switched off, or without IntersectionObserver support, the
    element keeps its initial class (`''`, respectively `classNameNotInView`)
    whatever the browser reports.
   */
  lemma UnobservedKeepsInitialClass(cfg: InviewConfig, observerSupported: bool, self: nat, batches: seq<seq<Entry>>)
    requires !cfg.active || !observerSupported
    ensures Deliver(cfg, self, Mounted(cfg, observerSupported), batches).className
         == if cfg.active then cfg.classNameNotInView else ""
  {
    DeliverAfterUnobserve(cfg, self, Mounted(cfg, observerSupported), batches);
  }

  /**
    Without `repeatInView`, one callback that reports the element in view and
    then out of view stops observation on the first entry and applies the
    second: `classNameNotInView` stays in place for good.
   */
  lemma InThenOutFreezesNotInView(cfg: InviewConfig, self: nat, v: Visibility, later: seq<seq<Entry>>)
    requires !cfg.repeatInView && v.observing
    ensures var after := EntriesCheck(cfg, self, v, [Entry(self, true), Entry(self, false)]);
      && after == Visibility(cfg.classNameNotInView, false)
      && Deliver(cfg, self, after, later) == after
  {
    var batch := [Entry(self, true), Entry(self, false)];
    assert batch[1..] == [Entry(self, false)];
    assert batch[1..][1..] == [];
    var mid := OnEntry(cfg, self, v, Entry(self, true));
    assert mid == Visibility(cfg.classNameInView, false);
    assert EntriesCheck(cfg, self, v, batch) == EntriesCheck(cfg, self, mid, [Entry(self, false)]);
    var after := OnEntry(cfg, self, mid, Entry(self, false));
    assert after == Visibility(cfg.classNameNotInView, false);
    assert EntriesCheck(cfg, self, mid, [Entry(self, false)]) == EntriesCheck(cfg, self, after, []);
    DeliverAfterUnobserve(cfg, self, after, later);
  }
}
